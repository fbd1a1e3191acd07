/**
 * The queries the handlers put to the chord collection, stated over the
 * collection's records in store order: `exists` by one field, `find` by
 * pattern, and the space-joined list of the found names.
 */
module ChordQueries {
  import opened Wrappers
  import opened ChordSchema

  /**
   * `exists({ chordName: name })`.  An absent value is sent as null, which
   * matches no stored record, since every saved record has a string name.
   */
  predicate HasName(store: seq<Record>, name: Option<string>): (b: bool)
    ensures b <==> name.Some? && name.value in Names(store)
  {
    name.Some? && exists i :: 0 <= i < |store| && store[i].chordName == name.value
  }

  /** `exists({ chordStrings: pattern })`, with the same reading of an absent value. */
  predicate HasPattern(store: seq<Record>, pattern: Option<string>): (b: bool)
    ensures b <==> pattern.Some? && WithPattern(store, pattern.value) != []
  {
    if pattern.Some? then
      WithPatternNonEmpty(store, pattern.value);
      exists i :: 0 <= i < |store| && store[i].chordStrings == pattern.value
    else false
  }

  /** `find({ chordStrings: pattern })`: the records with exactly this pattern, in store order. */
  function WithPattern(store: seq<Record>, pattern: string): (found: seq<Record>)
    ensures |found| <= |store|
    ensures forall r :: r in found <==> r in store && r.chordStrings == pattern
  {
    if store == [] then []
    else (if store[0].chordStrings == pattern then [store[0]] else []) + WithPattern(store[1..], pattern)
  }

  /** `find` returns something exactly when `exists` says so. */
  lemma WithPatternNonEmpty(store: seq<Record>, pattern: string)
    ensures WithPattern(store, pattern) != [] <==>
              exists i :: 0 <= i < |store| && store[i].chordStrings == pattern
  {
    var found := WithPattern(store, pattern);
    if found != [] {
      assert found[0] in found;
      var i :| 0 <= i < |store| && store[i] == found[0];
    }
  }

  /** The result keeps store order: finding in a concatenation concatenates the findings. */
  lemma {:induction false} WithPatternAppend(s: seq<Record>, t: seq<Record>, pattern: string)
    ensures WithPattern(s + t, pattern) == WithPattern(s, pattern) + WithPattern(t, pattern)
  {
    if s == [] {
      assert s + t == t;
    } else {
      assert (s + t)[0] == s[0];
      assert (s + t)[1..] == s[1..] + t;
      WithPatternAppend(s[1..], t, pattern);
    }
  }

  /** No two records share a pattern. */
  predicate PatternsUnique(store: seq<Record>)
  {
    forall i, j :: 0 <= i < j < |store| ==> store[i].chordStrings != store[j].chordStrings
  }

  /** In a store with unique patterns, `find` by a stored pattern returns just that record. */
  lemma {:induction false} WithPatternUnique(store: seq<Record>, i: nat)
    requires PatternsUnique(store)
    requires i < |store|
    ensures WithPattern(store, store[i].chordStrings) == [store[i]]
  {
    var pattern := store[i].chordStrings;
    var rest := store[1..];
    assert PatternsUnique(rest) by {
      forall a, b | 0 <= a < b < |rest| ensures rest[a].chordStrings != rest[b].chordStrings {
        assert rest[a] == store[a + 1] && rest[b] == store[b + 1];
      }
    }
    if i == 0 {
      forall k | 0 <= k < |rest| ensures rest[k].chordStrings != pattern {
        assert rest[k] == store[k + 1];
      }
      WithPatternNonEmpty(rest, pattern);
    } else {
      assert store[i] == rest[i - 1];
      assert store[0].chordStrings != pattern;
      WithPatternUnique(rest, i - 1);
    }
  }

  /** Appending a record whose pattern is not yet stored keeps patterns unique. */
  lemma AppendKeepsUnique(store: seq<Record>, r: Record)
    requires PatternsUnique(store)
    requires !HasPattern(store, Some(r.chordStrings))
    ensures PatternsUnique(store + [r])
  {
    var s := store + [r];
    forall i, j | 0 <= i < j < |s| ensures s[i].chordStrings != s[j].chordStrings {
      if j == |store| {
        assert s[i] == store[i];
      } else {
        assert s[i] == store[i] && s[j] == store[j];
      }
    }
  }

  /** `chords.map(chord => chord.chordName)`. */
  function Names(rs: seq<Record>): (names: seq<string>)
    ensures |names| == |rs|
    ensures forall k :: 0 <= k < |rs| ==> names[k] == rs[k].chordName
  {
    if rs == [] then [] else [rs[0].chordName] + Names(rs[1..])
  }

  /**
   * Array.prototype.join with the separator " ": the empty array joins to "",
   * one item joins to itself, and otherwise the result starts with the first item.
   */
  function JoinSpaces(xs: seq<string>): (r: string)
    ensures xs == [] ==> r == ""
    ensures xs != [] ==> xs[0] <= r
    ensures |xs| == 1 ==> r == xs[0]
  {
    if |xs| == 0 then ""
    else if |xs| == 1 then xs[0]
    else xs[0] + " " + JoinSpaces(xs[1..])
  }

  /** Joining one more item appends a single space and that item. */
  lemma {:induction false} JoinSpacesSnoc(xs: seq<string>, y: string)
    requires xs != []
    ensures JoinSpaces(xs + [y]) == JoinSpaces(xs) + " " + y
  {
    if |xs| == 1 {
      assert xs + [y] == [xs[0], y];
    } else {
      assert (xs + [y])[1..] == xs[1..] + [y];
      JoinSpacesSnoc(xs[1..], y);
    }
  }

  /**
   * String.prototype.split with the separator " ", the inverse of JoinSpaces
   * used to read a joined name list back: always at least one piece.
   */
  function SplitSpaces(s: string): (pieces: seq<string>)
    ensures |pieces| >= 1
  {
    if s == [] then [""]
    else if s[0] == ' ' then [""] + SplitSpaces(s[1..])
    else var t := SplitSpaces(s[1..]); [[s[0]] + t[0]] + t[1..]
  }

  lemma {:induction false} SplitWord(a: string)
    requires ' ' !in a
    ensures SplitSpaces(a) == [a]
  {
    if a != [] {
      assert a[0] in a;
      assert forall c :: c in a[1..] ==> c in a;
      SplitWord(a[1..]);
      assert [a[0]] + a[1..] == a;
    }
  }

  lemma {:induction false} SplitWordThen(a: string, t: string)
    requires ' ' !in a
    ensures SplitSpaces(a + " " + t) == [a] + SplitSpaces(t)
  {
    var s := a + " " + t;
    if a == [] {
      assert s == " " + t && s[1..] == t;
    } else {
      assert a[0] in a;
      assert forall c :: c in a[1..] ==> c in a;
      assert s[0] == a[0];
      assert s[1..] == a[1..] + " " + t;
      SplitWordThen(a[1..], t);
      assert [a[0]] + a[1..] == a;
    }
  }

  /**
   * A joined list of names without spaces splits back into exactly those
   * names, so the joined message lists each of them once, in order.
   */
  lemma {:induction false} SplitJoin(xs: seq<string>)
    requires |xs| > 0
    requires forall k :: 0 <= k < |xs| ==> ' ' !in xs[k]
    ensures SplitSpaces(JoinSpaces(xs)) == xs
  {
    if |xs| == 1 {
      SplitWord(xs[0]);
    } else {
      SplitWordThen(xs[0], JoinSpaces(xs[1..]));
      SplitJoin(xs[1..]);
    }
  }
}
