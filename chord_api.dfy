/**
 * The chord HTTP handlers over the record store: `GET /chords` returns every
 * record, and `POST /chords/add` runs the two existence checks and then either
 * rejects the request or saves the normalised record.  Requests are taken one
 * at a time, each `await` read as ordinary sequencing.
 */
module ChordApi {
  import opened Wrappers
  import opened ChordSchema
  import opened ChordQueries

  /** Why a save failed: the schema's validators, or a fault in the database itself. */
  datatype Fault = ValidationFailed(paths: set<Path>) | StoreFault

  /** A JSON reply body: a message string, or `"Error: " + err` with err left opaque. */
  datatype Body = Text(text: string) | Error(fault: Fault)

  /** An HTTP reply: `res.json` answers 200, `res.status(400).json` answers 400. */
  datatype Reply = Reply(status: int, body: Body)

  /** The reply to one request and the store after it. */
  datatype Outcome = Outcome(reply: Reply, store: seq<Record>)

  /** One `POST /chords/add` request and whether the database fails on its save. */
  datatype Request = Request(body: Fields, fault: bool)

  const Added := "Chord added!"
  const CollisionPrefix := "This string pattern is already matched to "
  const DuplicateSuffix := " already exists with this string pattern."

  /** `newChord.save()`: validate the document, then write it unless the database fails. */
  function Save(store: seq<Record>, doc: Fields, fault: bool): (o: Outcome)
    ensures o.reply.status == 200 <==> Validate(doc).Ok? && !fault
    ensures o.store == (if o.reply.status == 200 then store + [Validate(doc).value] else store)
    ensures o.reply.status == 200 ==> o.reply.body == Text(Added)
    ensures Validate(doc).Err? ==> o.reply == Reply(400, Error(ValidationFailed(Validate(doc).error)))
    ensures Validate(doc).Ok? && fault ==> o.reply == Reply(400, Error(StoreFault))
  {
    match Validate(doc)
    case Err(paths) => Outcome(Reply(400, Error(ValidationFailed(paths))), store)
    case Ok(record) =>
      if fault then Outcome(Reply(400, Error(StoreFault)), store)
      else Outcome(Reply(200, Text(Added)), store + [record])
  }

  /**
   * The `/chords/add` decision over the store before the request.  Both
   * existence checks use the fields as received; only the saved document is
   * normalised.  A reply is 200 exactly when one record was appended.
   */
  function Handle(store: seq<Record>, body: Fields, fault: bool): (o: Outcome)
    ensures store <= o.store && |o.store| <= |store| + 1
    ensures o.reply.status == 200 || o.reply.status == 400
    ensures o.reply.status == 200 <==> |o.store| == |store| + 1
  {
    var nameExists := HasName(store, body.chordName);
    var stringsExist := HasPattern(store, body.chordStrings);
    if nameExists && stringsExist then
      Outcome(Reply(400, Text("Chord " + body.chordName.value + DuplicateSuffix)), store)
    else if !stringsExist then
      Save(store, Normalise(body), fault)
    else
      var matches := WithPattern(store, body.chordStrings.value);
      Outcome(Reply(400, Text(CollisionPrefix + JoinSpaces(Names(matches)))), store)
  }

  /**
   * A new pattern with a valid body and no database fault is saved: exactly
   * one record, holding the trimmed name and the pattern verbatim, is
   * appended, the reply is 200 "Chord added!", and the pattern now exists.
   */
  lemma AcceptsNewPattern(store: seq<Record>, body: Fields)
    requires !HasPattern(store, body.chordStrings)
    requires body.chordName.Some? && !AllWhite(body.chordName.value) && Present(body.chordStrings)
    ensures Handle(store, body, false).reply == Reply(200, Text(Added))
    ensures Handle(store, body, false).store
            == store + [Record(Trim(body.chordName.value), body.chordStrings.value)]
    ensures HasPattern(Handle(store, body, false).store, body.chordStrings)
  {
    SaveValidation(body);
    var s := Handle(store, body, false).store;
    assert s[|store|].chordStrings == body.chordStrings.value;
  }

  /**
   * A new pattern with a valid body whose save the database fails is
   * answered 400 with the store fault, and the store is unchanged.
   */
  lemma StoreFaultReply(store: seq<Record>, body: Fields)
    requires !HasPattern(store, body.chordStrings)
    requires body.chordName.Some? && !AllWhite(body.chordName.value) && Present(body.chordStrings)
    ensures Handle(store, body, true) == Outcome(Reply(400, Error(StoreFault)), store)
  {
    SaveValidation(body);
  }

  /** Name reuse alone never blocks: with the pattern new, the request takes the save path. */
  lemma NameReuseSaves(store: seq<Record>, body: Fields, fault: bool)
    requires HasName(store, body.chordName)
    requires !HasPattern(store, body.chordStrings)
    ensures Handle(store, body, fault) == Save(store, Normalise(body), fault)
    ensures Handle(store, body, fault).reply.body != Text("Chord " + body.chordName.value + DuplicateSuffix)
  {
  }

  /** A stored pattern always means 400 and an unchanged store. */
  lemma ExistingPatternRejected(store: seq<Record>, body: Fields, fault: bool)
    requires HasPattern(store, body.chordStrings)
    ensures Handle(store, body, fault).store == store
    ensures Handle(store, body, fault).reply.status == 400
  {
  }

  /** Name and pattern both stored (perhaps in different records): the duplicate-record reply. */
  lemma DuplicateReply(store: seq<Record>, body: Fields, fault: bool)
    requires HasName(store, body.chordName) && HasPattern(store, body.chordStrings)
    ensures Handle(store, body, fault)
            == Outcome(Reply(400, Text("Chord " + body.chordName.value + DuplicateSuffix)), store)
  {
  }

  /**
   * The two existence checks are independent: a store holding C with one
   * pattern and Am with another rejects C with Am's pattern as a duplicate
   * record, although no record pairs that name with that pattern.
   */
  lemma DuplicateNeedNotBeOneRecord()
    ensures var store := [Record("C", "x32010"), Record("Am", "x02210")];
            Record("C", "x02210") !in store
            && Handle(store, Fields(Some("C"), Some("x02210")), false).reply
               == Reply(400, Text("Chord C" + DuplicateSuffix))
  {
    var store := [Record("C", "x32010"), Record("Am", "x02210")];
    var body := Fields(Some("C"), Some("x02210"));
    assert store[0].chordName == "C";
    assert store[1].chordStrings == "x02210";
    DuplicateReply(store, body, false);
    assert "Chord " + "C" == "Chord C";
  }

  /**
   * A stored pattern under a name never stored: 400, the store unchanged, and
   * the text is the collision prefix followed by the names of the records
   * with that pattern, in store order, joined by single spaces; there is at
   * least one such name.  When no stored name holds a space, splitting the
   * text after the prefix gives back exactly those names.
   */
  lemma CollisionReply(store: seq<Record>, body: Fields, fault: bool)
    requires !HasName(store, body.chordName) && HasPattern(store, body.chordStrings)
    ensures var o := Handle(store, body, fault);
            var names := Names(WithPattern(store, body.chordStrings.value));
            && o.store == store && o.reply.status == 400
            && o.reply.body == Text(CollisionPrefix + JoinSpaces(names))
            && names != []
            && ((forall r :: r in store ==> ' ' !in r.chordName) ==>
                  SplitSpaces(o.reply.body.text[|CollisionPrefix|..]) == names)
  {
    var found := WithPattern(store, body.chordStrings.value);
    var text := CollisionPrefix + JoinSpaces(Names(found));
    assert Handle(store, body, fault) == Outcome(Reply(400, Text(text)), store);
    WithPatternNonEmpty(store, body.chordStrings.value);
    assert text[|CollisionPrefix|..] == JoinSpaces(Names(found));
    if forall r :: r in store ==> ' ' !in r.chordName {
      forall k | 0 <= k < |found| ensures ' ' !in Names(found)[k] {
        assert found[k] in found;
      }
      SplitJoin(Names(found));
    }
  }

  /** With patterns unique, the collision reply names the one record holding the pattern. */
  lemma CollisionNamesOwner(store: seq<Record>, i: nat, body: Fields, fault: bool)
    requires PatternsUnique(store)
    requires i < |store| && body.chordStrings == Some(store[i].chordStrings)
    requires !HasName(store, body.chordName)
    ensures Handle(store, body, fault)
            == Outcome(Reply(400, Text(CollisionPrefix + store[i].chordName)), store)
  {
    WithPatternUnique(store, i);
  }

  /** A missing, empty or all-whitespace name is never saved: 400 and the store unchanged. */
  lemma BlankNameRejected(store: seq<Record>, body: Fields, fault: bool)
    requires body.chordName.None? || AllWhite(body.chordName.value)
    ensures Handle(store, body, fault).store == store
    ensures Handle(store, body, fault).reply.status == 400
  {
    SaveValidation(body);
  }

  /** A missing or empty pattern is never saved: 400 and the store unchanged. */
  lemma BlankPatternRejected(store: seq<Record>, body: Fields, fault: bool)
    requires !Present(body.chordStrings)
    ensures Handle(store, body, fault).store == store
    ensures Handle(store, body, fault).reply.status == 400
  {
  }

  /**
   * On the save path a body that fails validation is answered with the
   * failing paths, the name path exactly when the name is missing or blank.
   */
  lemma ValidationReply(store: seq<Record>, body: Fields, fault: bool)
    requires !HasPattern(store, body.chordStrings)
    requires !(body.chordName.Some? && !AllWhite(body.chordName.value) && Present(body.chordStrings))
    ensures var o := Handle(store, body, fault);
            && o.store == store && o.reply.status == 400
            && o.reply.body.Error? && o.reply.body.fault.ValidationFailed?
            && (ChordNamePath in o.reply.body.fault.paths
                <==> body.chordName.None? || AllWhite(body.chordName.value))
            && (ChordStringsPath in o.reply.body.fault.paths <==> !Present(body.chordStrings))
  {
    SaveValidation(body);
    if body.chordName.Some? { TrimEmptyIff(body.chordName.value); }
  }

  /**
   * A successful request appends one well-formed record carrying the
   * requested pattern; every earlier record stays where it was.
   */
  lemma SuccessAppends(store: seq<Record>, body: Fields, fault: bool)
    requires Handle(store, body, fault).reply.status == 200
    ensures var s := Handle(store, body, fault).store;
            && |s| == |store| + 1 && s[..|store|] == store
            && WellFormed(s[|store|]) && Some(s[|store|].chordStrings) == body.chordStrings
            && s[|store|].chordName == Trim(body.chordName.value)
            && HasPattern(s, body.chordStrings)
  {
    SaveValidation(body);
    var s := Handle(store, body, fault).store;
    assert s[|store|].chordStrings == body.chordStrings.value;
  }

  /** Every record is one the schema could have saved. */
  predicate AllWellFormed(store: seq<Record>)
  {
    forall k :: 0 <= k < |store| ==> WellFormed(store[k])
  }

  /** A request either leaves the store as it was or appends the record SuccessAppends describes. */
  lemma HandleAppendsOrKeeps(store: seq<Record>, body: Fields, fault: bool)
    ensures var s := Handle(store, body, fault).store;
            s == store || (s == store + [s[|store|]] && WellFormed(s[|store|])
                           && !HasPattern(store, Some(s[|store|].chordStrings)))
  {
    var o := Handle(store, body, fault);
    if o.reply.status == 200 {
      SuccessAppends(store, body, fault);
      assert !HasPattern(store, body.chordStrings);
      assert o.store == o.store[..|store|] + [o.store[|store|]];
    } else {
      assert o.store[..|store|] == store;
    }
  }

  /** One request keeps patterns unique and records well formed. */
  lemma HandleKeepsInvariants(store: seq<Record>, body: Fields, fault: bool)
    ensures PatternsUnique(store) ==> PatternsUnique(Handle(store, body, fault).store)
    ensures AllWellFormed(store) ==> AllWellFormed(Handle(store, body, fault).store)
  {
    HandleAppendsOrKeeps(store, body, fault);
    var s := Handle(store, body, fault).store;
    if s != store {
      var r := s[|store|];
      if PatternsUnique(store) { AppendKeepsUnique(store, r); }
      if AllWellFormed(store) {
        forall k | 0 <= k < |s| ensures WellFormed(s[k]) {
          if k < |store| { assert s[k] == store[k]; }
        }
      }
    }
  }

  /** The store after a sequence of requests handled one at a time. */
  function Replay(store: seq<Record>, requests: seq<Request>): (s: seq<Record>)
    ensures store <= s && |s| <= |store| + |requests|
    decreases requests
  {
    if requests == [] then store
    else
      var next := Handle(store, requests[0].body, requests[0].fault).store;
      var s := Replay(next, requests[1..]);
      assert s[..|store|] == next[..|store|] == store;
      s
  }

  /**
   * Pattern uniqueness is an invariant of sequential requests: starting from
   * a store without repeated patterns, no sequence of requests creates one.
   */
  lemma {:induction false} ReplayKeepsInvariants(store: seq<Record>, requests: seq<Request>)
    ensures PatternsUnique(store) ==> PatternsUnique(Replay(store, requests))
    ensures AllWellFormed(store) ==> AllWellFormed(Replay(store, requests))
    decreases requests
  {
    if requests != [] {
      HandleKeepsInvariants(store, requests[0].body, requests[0].fault);
      ReplayKeepsInvariants(Handle(store, requests[0].body, requests[0].fault).store, requests[1..]);
    }
  }

  /** A store filled only through `/chords/add` has unique patterns and well-formed records. */
  lemma FromEmptyStore(requests: seq<Request>)
    ensures PatternsUnique(Replay([], requests)) && AllWellFormed(Replay([], requests))
  {
    ReplayKeepsInvariants([], requests);
  }

  /** The chord collection, with the two handlers as methods. */
  class ChordStore {
    var records: seq<Record>

    constructor ()
      ensures records == []
    {
      records := [];
    }

    /** `GET /chords`: every record, in store order; nothing changes. */
    method FindAll() returns (chords: seq<Record>)
      ensures chords == records
    {
      chords := records;
    }

    /**
     * `POST /chords/add`: set the two flags from the existence checks, then
     * reject or save.  The reply and the new store are those of Handle, and
     * pattern uniqueness is preserved.
     */
    method Add(body: Fields, fault: bool) returns (reply: Reply)
      modifies this
      ensures Outcome(reply, records) == Handle(old(records), body, fault)
      ensures PatternsUnique(old(records)) ==> PatternsUnique(records)
      ensures AllWellFormed(old(records)) ==> AllWellFormed(records)
    {
      HandleKeepsInvariants(records, body, fault);
      var nameExists := false;
      var stringsExist := false;
      var newChord := Normalise(body);
      if HasName(records, body.chordName) {
        nameExists := true;
      }
      if HasPattern(records, body.chordStrings) {
        stringsExist := true;
      }
      if nameExists && stringsExist {
        reply := Reply(400, Text("Chord " + body.chordName.value + DuplicateSuffix));
      } else if !stringsExist {
        match Validate(newChord)
        case Err(paths) =>
          reply := Reply(400, Error(ValidationFailed(paths)));
        case Ok(record) =>
          if fault {
            reply := Reply(400, Error(StoreFault));
          } else {
            records := records + [record];
            reply := Reply(200, Text(Added));
          }
      } else {
        var chords := WithPattern(records, body.chordStrings.value);
        reply := Reply(400, Text(CollisionPrefix + JoinSpaces(Names(chords))));
      }
    }
  }
}
