/**
 * The chord document schema: two required string paths, `chordName` with a
 * `trim` setter and `chordStrings` stored as given.  Mongoose applies the
 * setter when the document is constructed and runs the `required`
 * validators when it is saved; both are modelled here as pure functions.
 */
module ChordSchema {
  import opened Wrappers

  /** A stored chord record (the timestamps the schema adds are not modelled). */
  datatype Record = Record(chordName: string, chordStrings: string)

  /** The fields of a request body; a field that is absent or null is None. */
  datatype Fields = Fields(chordName: Option<string>, chordStrings: Option<string>)

  /** The schema paths, as named in a validation error. */
  datatype Path = ChordNamePath | ChordStringsPath

  /**
   * The characters String.prototype.trim removes: ECMAScript WhiteSpace
   * (tab, vertical tab, form feed, space, no-break space, byte order mark and
   * every other space separator) and LineTerminator (LF, CR, U+2028, U+2029).
   */
  predicate IsWhite(c: char)
  {
    c == '\t' || c == '\n' || c == '\U{B}' || c == '\U{C}' || c == '\r' || c == ' '
    || c == '\U{A0}' || c == '\U{1680}' || ('\U{2000}' <= c <= '\U{200A}')
    || c == '\U{2028}' || c == '\U{2029}' || c == '\U{202F}' || c == '\U{205F}'
    || c == '\U{3000}' || c == '\U{FEFF}'
  }

  predicate AllWhite(s: string)
  {
    forall i :: 0 <= i < |s| ==> IsWhite(s[i])
  }

  /** Neither the first nor the last character of s is whitespace. */
  predicate Trimmed(s: string)
  {
    s == [] || (!IsWhite(s[0]) && !IsWhite(s[|s| - 1]))
  }

  /** s without its leading whitespace: a suffix of s, all of whose removed characters are white. */
  function TrimStart(s: string): (r: string)
    ensures |r| <= |s| && r == s[|s| - |r|..]
    ensures AllWhite(s[..|s| - |r|])
    ensures r == [] || !IsWhite(r[0])
  {
    if s != [] && IsWhite(s[0]) then TrimStart(s[1..]) else s
  }

  /** s without its trailing whitespace: a prefix of s, all of whose removed characters are white. */
  function TrimEnd(s: string): (r: string)
    ensures |r| <= |s| && r == s[..|r|]
    ensures AllWhite(s[|r|..])
    ensures r == [] || !IsWhite(r[|r| - 1])
  {
    if s != [] && IsWhite(s[|s| - 1]) then TrimEnd(s[..|s| - 1]) else s
  }

  /**
   * String.prototype.trim: the slice s[i..j] left after removing the
   * whitespace before i and after j, with no whitespace at either end.
   */
  function Trim(s: string): (r: string)
    ensures |r| <= |s|
    ensures Trimmed(r)
    ensures exists i :: 0 <= i <= |s| - |r| && r == s[i..i + |r|]
                        && AllWhite(s[..i]) && AllWhite(s[i + |r|..])
  {
    var t := TrimStart(s);
    var r := TrimEnd(t);
    var i := |s| - |t|;
    assert r == s[i..i + |r|];
    assert s[i + |r|..] == t[|r|..];
    r
  }

  lemma TrimTrimmed(s: string)
    requires Trimmed(s)
    ensures Trim(s) == s
  {
    assert TrimStart(s) == s;
    assert TrimEnd(s) == s;
  }

  /** The `trim` setter is idempotent. */
  lemma TrimIdempotent(s: string)
    ensures Trim(Trim(s)) == Trim(s)
  {
    TrimTrimmed(Trim(s));
  }

  /** Trimming leaves nothing exactly when the string is all whitespace. */
  lemma TrimEmptyIff(s: string)
    ensures Trim(s) == [] <==> AllWhite(s)
  {
    if Trim(s) == [] {
      var i :| 0 <= i <= |s| && AllWhite(s[..i]) && AllWhite(s[i..]);
      forall k | 0 <= k < |s| ensures IsWhite(s[k]) {
        if k < i { assert s[k] == s[..i][k]; } else { assert s[k] == s[i..][k - i]; }
      }
    }
  }

  /** A string that trimming leaves unchanged has no surrounding whitespace. */
  lemma TrimFixedIff(s: string)
    ensures Trim(s) == s <==> Trimmed(s)
  {
    if Trimmed(s) { TrimTrimmed(s); }
  }

  /**
   * Constructing a document applies the path setters: `chordName` is trimmed
   * when it is a string, `chordStrings` is kept verbatim.
   */
  function Normalise(f: Fields): (n: Fields)
    ensures n.chordStrings == f.chordStrings
    ensures n.chordName.Some? <==> f.chordName.Some?
    ensures n.chordName.Some? ==> Trimmed(n.chordName.value)
    ensures n.chordName.Some? ==>
              var raw, name := f.chordName.value, n.chordName.value;
              exists i :: 0 <= i <= |raw| - |name| && name == raw[i..i + |name|]
                          && AllWhite(raw[..i]) && AllWhite(raw[i + |name|..])
  {
    match f.chordName
    case None => f
    case Some(name) => f.(chordName := Some(Trim(name)))
  }

  /** Normalising a normalised document changes nothing. */
  lemma NormaliseIdempotent(f: Fields)
    ensures Normalise(Normalise(f)) == Normalise(f)
  {
    if f.chordName.Some? { TrimIdempotent(f.chordName.value); }
  }

  /** The `required` validator of a String path: the value must be present and non-empty. */
  predicate Present(v: Option<string>)
  {
    v.Some? && v.value != []
  }

  /**
   * Validation on save: every required path that is missing or empty is
   * reported; a document that passes becomes the record to store.
   */
  function Validate(f: Fields): (r: Result<Record, set<Path>>)
    ensures r.Ok? <==> Present(f.chordName) && Present(f.chordStrings)
    ensures r.Ok? ==> r.value.chordName == f.chordName.value && r.value.chordStrings == f.chordStrings.value
    ensures r.Err? ==> r.error != {}
    ensures r.Err? ==> (ChordNamePath in r.error <==> !Present(f.chordName))
    ensures r.Err? ==> (ChordStringsPath in r.error <==> !Present(f.chordStrings))
  {
    var missing := (if Present(f.chordName) then {} else {ChordNamePath})
                   + (if Present(f.chordStrings) then {} else {ChordStringsPath});
    if missing == {} then Ok(Record(f.chordName.value, f.chordStrings.value)) else Err(missing)
  }

  /** A record that the schema could have produced: trimmed, non-empty name and non-empty pattern. */
  predicate WellFormed(r: Record)
  {
    r.chordName != [] && Trimmed(r.chordName) && r.chordStrings != []
  }

  /**
   * A request body is saved exactly when its name has a non-whitespace
   * character and its pattern is a non-empty string; the stored record then
   * holds the trimmed name and the pattern verbatim, and is well formed.
   */
  lemma SaveValidation(f: Fields)
    ensures Validate(Normalise(f)).Ok? <==>
              (f.chordName.Some? && !AllWhite(f.chordName.value) && Present(f.chordStrings))
    ensures Validate(Normalise(f)).Ok? ==>
              Validate(Normalise(f)).value == Record(Trim(f.chordName.value), f.chordStrings.value)
              && WellFormed(Validate(Normalise(f)).value)
  {
    if f.chordName.Some? { TrimEmptyIff(f.chordName.value); }
  }

  /** Saving a well-formed record's fields gives back that record. */
  lemma WellFormedRoundTrip(r: Record)
    requires WellFormed(r)
    ensures Validate(Normalise(Fields(Some(r.chordName), Some(r.chordStrings)))) == Ok(r)
  {
    TrimTrimmed(r.chordName);
  }
}
