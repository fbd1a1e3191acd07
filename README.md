# Chord store: the `/chords/add` insertion policy

A Dafny model of the chord-search API's decision logic. The API keeps a
collection of chord records, each a name (`chordName`) and a fret pattern
(`chordStrings`). `GET /chords` returns every record. `POST /chords/add`
runs two independent existence checks, one by name and one by pattern, and
then does one of three things:

- it rejects the request as a duplicate record, when both the name and the
  pattern are already stored;
- it saves the record, when the pattern is not stored, whether or not the
  name is;
- it rejects the request as a pattern collision, listing the names already
  using the pattern, when only the pattern is stored.

Constructing the document trims `chordName`; saving runs the schema's
`required` validators, so each path must then be a non-empty string.

Files:

- `wrappers.dfy`: `Option` and `Result`.
- `chord_model.dfy` (module `ChordSchema`): the record, JavaScript's
  `String.prototype.trim`, and the schema's setter (`Normalise`) and
  validators (`Validate`).
- `chord_store.dfy` (module `ChordQueries`): the store queries over a
  `seq<Record>` in store order. These are `exists` by name and by pattern,
  `find` by pattern, the name list, and `join(" ")` with its inverse `split(" ")`.
- `chord_api.dfy` (module `ChordApi`): the replies, the specification
  function `Handle` of one request, the class `ChordStore` with `FindAll`
  and `Add`, and the lemmas about the policy.

Modelling choices:

- A request body field is either a string or absent. An absent field and
  `null` are both `None`.
- An existence query with an absent value matches no stored record. The
  value is sent as null, and every saved record has string fields.
- The existence checks compare the name as received, before trimming. Only
  the saved document is normalised.
- `find` returns records in store order.
- A database fault on save is the parameter `fault` of `Add`.
- `"Error: " + err` is kept opaque: the fault is recorded, not its text.

Behaviour worth knowing, all proved below:

- Validation runs only when the document is saved, and that happens after
  both existence checks. A blank name whose pattern is stored therefore gets
  the collision or duplicate reply, not a validation error. Either way the
  store is unchanged.
- The pattern is stored verbatim and is not trimmed. A whitespace-only
  pattern is accepted, and two patterns that differ only in spacing count
  as different.
- The duplicate-record reply does not need one record holding both the name
  and the pattern (`DuplicateNeedNotBeOneRecord`).
- Because the stored pattern is exactly the one queried, pattern uniqueness
  is an invariant of sequential requests.

## Model

| member | source | states |
|---|---|---|
| `ChordSchema.TrimStart` | amplify/backend/function/chordSearchApi/src/models/chord.model.js:10 | the result is a suffix of the input; everything removed is whitespace; the result does not start with whitespace |
| `ChordSchema.TrimEnd` | amplify/backend/function/chordSearchApi/src/models/chord.model.js:10 | the result is a prefix of the input; everything removed is whitespace; the result does not end with whitespace |
| `ChordSchema.Trim` | amplify/backend/function/chordSearchApi/src/models/chord.model.js:10 | the result is a slice `s[i..j]` of the input, with only whitespace before `i` and after `j`, and no whitespace at either end |
| `ChordSchema.TrimTrimmed` | amplify/backend/function/chordSearchApi/src/models/chord.model.js:10 | a string without surrounding whitespace is left unchanged by trimming |
| `ChordSchema.TrimIdempotent` | amplify/backend/function/chordSearchApi/src/models/chord.model.js:10 | trimming twice is the same as trimming once |
| `ChordSchema.TrimEmptyIff` | amplify/backend/function/chordSearchApi/src/models/chord.model.js:9-10 | trimming gives the empty string exactly when the input is all whitespace |
| `ChordSchema.TrimFixedIff` | amplify/backend/function/chordSearchApi/src/models/chord.model.js:10 | trimming leaves a string unchanged exactly when it has no whitespace at either end |
| `ChordSchema.Normalise` | amplify/backend/function/chordSearchApi/src/models/chord.model.js:7-15 | constructing the document turns a present `chordName` into the slice of it left after removing only surrounding whitespace, with none left at either end (which is its `trim`); it keeps `chordStrings` verbatim and leaves absent fields absent |
| `ChordSchema.NormaliseIdempotent` | amplify/backend/function/chordSearchApi/src/models/chord.model.js:10 | normalising a normalised document changes nothing |
| `ChordSchema.Validate` | amplify/backend/function/chordSearchApi/src/models/chord.model.js:7-15 | validation passes exactly when both paths are non-empty strings, and then yields those values; otherwise it reports each path that is missing or empty, and no other |
| `ChordSchema.SaveValidation` | amplify/backend/function/chordSearchApi/src/models/chord.model.js:7-15 | a body saves exactly when its name has a non-whitespace character and its pattern is a non-empty string; the record then holds the trimmed name and the untrimmed pattern, and is well formed |
| `ChordSchema.WellFormedRoundTrip` | amplify/backend/function/chordSearchApi/src/models/chord.model.js:7-15 | saving the fields of a well-formed record gives back that same record |
| `ChordQueries.WithPattern` | amplify/backend/function/chordSearchApi/src/app.js:92 | `find` by pattern returns exactly the stored records with that pattern, and no more records than the store holds |
| `ChordQueries.HasName` | amplify/backend/function/chordSearchApi/src/app.js:68-70 | `exists` by name is true exactly when the name is present and is the `chordName` of some stored record |
| `ChordQueries.HasPattern` | amplify/backend/function/chordSearchApi/src/app.js:72-74 | `exists` by pattern is true exactly when the pattern is present and `find` by that pattern returns something |
| `ChordQueries.WithPatternNonEmpty` | amplify/backend/function/chordSearchApi/src/app.js:72-74 | `find` by a pattern returns something exactly when some stored record holds that pattern |
| `ChordQueries.WithPatternAppend` | amplify/backend/function/chordSearchApi/src/app.js:92 | `find` keeps store order: on a concatenation of stores it returns the two results concatenated |
| `ChordQueries.WithPatternUnique` | amplify/backend/function/chordSearchApi/src/app.js:92-98 | in a store with unique patterns, `find` by a stored pattern returns only the record that holds it |
| `ChordQueries.AppendKeepsUnique` | amplify/backend/function/chordSearchApi/src/app.js:82-86 | appending a record whose pattern is not yet stored keeps every pattern unique |
| `ChordQueries.Names` | amplify/backend/function/chordSearchApi/src/app.js:97 | the name list has one entry per record: the record's `chordName`, in the same position |
| `ChordQueries.JoinSpaces` | amplify/backend/function/chordSearchApi/src/app.js:96-98 | `join(" ")` of no names is the empty string, of one name is that name, and of more names starts with the first name |
| `ChordQueries.JoinSpacesSnoc` | amplify/backend/function/chordSearchApi/src/app.js:96-98 | joining one more name appends a single space and that name |
| `ChordQueries.SplitSpaces` | amplify/backend/function/chordSearchApi/src/app.js:96-98 | `split(" ")`, the inverse of `JoinSpaces` used to read the collision message back (the handler itself only joins); it always yields at least one piece |
| `ChordQueries.SplitWord` | amplify/backend/function/chordSearchApi/src/app.js:96-98 | helper for reading the joined names back: a word without spaces splits into just itself |
| `ChordQueries.SplitWordThen` | amplify/backend/function/chordSearchApi/src/app.js:96-98 | helper for reading the joined names back: a space-free word, then a space, then the rest splits into that word followed by the pieces of the rest |
| `ChordQueries.SplitJoin` | amplify/backend/function/chordSearchApi/src/app.js:96-98 | names without spaces, joined by single spaces, split back into exactly those names |
| `ChordApi.Save` | amplify/backend/function/chordSearchApi/src/app.js:84-89 | a save answers 200 `"Chord added!"` exactly when the document validates and the database does not fail, and only then appends the validated record; a failed validation answers 400 with the failing paths, a database fault answers 400 with the store fault, and both leave the store unchanged |
| `ChordApi.StoreFaultReply` | amplify/backend/function/chordSearchApi/src/app.js:84-89 | a new pattern with a valid body whose save the database fails answers 400 with the store fault and leaves the store unchanged |
| `ChordApi.Handle` | amplify/backend/function/chordSearchApi/src/app.js:60-102 | every request answers 200 or 400; the old store is always a prefix of the new one; the reply is 200 exactly when one record was appended |
| `ChordApi.AcceptsNewPattern` | amplify/backend/function/chordSearchApi/src/app.js:82-86 | a new pattern, with a valid body and no fault, appends exactly the record (trimmed name, pattern as given) and replies 200 `"Chord added!"`; afterwards the pattern exists |
| `ChordApi.NameReuseSaves` | amplify/backend/function/chordSearchApi/src/app.js:76-86 | a stored name with a new pattern takes the save path, never the duplicate reply |
| `ChordApi.ExistingPatternRejected` | amplify/backend/function/chordSearchApi/src/app.js:76-101 | whenever the pattern is stored, the reply is 400 and the store is unchanged |
| `ChordApi.DuplicateReply` | amplify/backend/function/chordSearchApi/src/app.js:76-81 | a stored name and a stored pattern give 400 `"Chord <name> already exists with this string pattern."` and leave the store unchanged |
| `ChordApi.DuplicateNeedNotBeOneRecord` | amplify/backend/function/chordSearchApi/src/app.js:68-81 | with C and Am stored under different patterns, adding C with Am's pattern gets the duplicate-record reply, though no record pairs C with that pattern |
| `ChordApi.CollisionReply` | amplify/backend/function/chordSearchApi/src/app.js:90-100 | a stored pattern under a new name replies 400 with the collision prefix followed by the names of the records with that pattern, in store order, joined by single spaces, and leaves the store unchanged; there is at least one such name; if no stored name holds a space, the text after the prefix splits back into exactly those names |
| `ChordApi.CollisionNamesOwner` | amplify/backend/function/chordSearchApi/src/app.js:90-100 | if patterns are unique, the collision reply names exactly the one record holding the pattern |
| `ChordApi.BlankNameRejected` | amplify/backend/function/chordSearchApi/src/app.js:76-101 | a missing, empty or all-whitespace name never changes the store and always replies 400 |
| `ChordApi.BlankPatternRejected` | amplify/backend/function/chordSearchApi/src/app.js:76-101 | a missing or empty pattern never changes the store and always replies 400 |
| `ChordApi.ValidationReply` | amplify/backend/function/chordSearchApi/src/app.js:84-89 | on the save path, an invalid body replies 400 with a validation error that reports the name path exactly when the name is missing or blank, and the pattern path exactly when the pattern is missing or empty; the store is unchanged |
| `ChordApi.SuccessAppends` | amplify/backend/function/chordSearchApi/src/app.js:84-86 | a 200 reply appends one well-formed record with the requested pattern and the trimmed name; every earlier record keeps its position |
| `ChordApi.HandleAppendsOrKeeps` | amplify/backend/function/chordSearchApi/src/app.js:76-101 | a request either leaves the store unchanged or appends one well-formed record whose pattern was not yet stored |
| `ChordApi.HandleKeepsInvariants` | amplify/backend/function/chordSearchApi/src/app.js:72-101 | one request keeps patterns unique and every record well formed |
| `ChordApi.Replay` | amplify/backend/function/chordSearchApi/src/app.js:60-102 | handling requests one after another only appends, at most one record per request |
| `ChordApi.ReplayKeepsInvariants` | amplify/backend/function/chordSearchApi/src/app.js:72-101 | handling any sequence of requests keeps patterns unique and every record well formed |
| `ChordApi.FromEmptyStore` | amplify/backend/function/chordSearchApi/src/app.js:60-102 | a store filled only through `/chords/add` has unique patterns and only well-formed records |
| `ChordApi.ChordStore.FindAll` | amplify/backend/function/chordSearchApi/src/app.js:42-44 | `GET /chords` returns the store's records, in order, and changes nothing |
| `ChordApi.ChordStore.Add` | amplify/backend/function/chordSearchApi/src/app.js:60-102 | sets the two flags from the existence checks and then rejects or saves; the reply and new store are those of `Handle`; pattern uniqueness and well-formedness are preserved |

## Left out

- Express setup, body parsing, the CORS headers and the serverless wrapper (app.js:9-28). These are transport plumbing.
- The MongoDB connection and its URI from the environment (app.js:30-36). This is I/O.
- `GET /chords/search` (app.js:48-54). It builds a case-insensitive regular expression from raw user input, and modelling regular-expression syntax is out of reach.
- Concurrent requests. The existence checks and the save are not atomic, so two concurrent requests with the same pattern can both be saved. The model handles one request at a time.
- The `createdAt`/`updatedAt` timestamps (chord.model.js:17-19). They depend on the clock.
- The text of `"Error: " + err`. The model keeps the fault (which paths failed validation, or a database fault) and not its string form.
- Database faults on reads. A failing `exists` or collision `find` is not caught in app.js:68-74 and app.js:92, so no reply is sent. The `400 "Error: ..."` branch of `GET /chords` (app.js:45) is also not modelled.
- ChordApi.ChordStore.FindAll: does not model the 400 error reply of a failing `find` (see above).
- Body values that are not strings (numbers, objects). Mongoose casts them, and that casting is not modelled.
- Whether Mongoose trims the name in the query filters. The model assumes it does not, so the checks compare the raw name.
- amplify/backend/types/amplify-dependent-resources-ref.d.ts. It only declares types for deployment resources.
