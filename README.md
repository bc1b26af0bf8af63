# ONONotesApp notes client, modelled in Dafny

This project models the data handling of `src/api/apiService.js`, the client that
keeps the note-taking application's notes in the ONO remote key/value store.

- **Saving** (`saveNotes`) drops `null`/`undefined` entries. It maps each note to
  its canonical record by `type`: "classic" keeps `content`, "list" keeps `items`,
  and any other type leaves an `undefined` slot. It then writes the stringified
  envelope `[records, [{isOccupied: flag}]]`.
- **Loading** (`loadNotes`) parses the stored text and accepts only an array of
  exactly two elements. It reads the occupancy status as
  `responseArray[1][0]?.isOccupied || false`. Every failure yields `null`, and
  loading never throws.
- **Updating** (`updateNotes`) runs the occupancy protocol. It loads the notes. If
  the store is occupied, it retries. Otherwise it writes the collection back marked
  occupied, then upserts the patch by `id`: the index comes from a null-filtered
  copy but is applied to the unfiltered array. Finally it writes the collection
  marked free.
- **Group projection** (`saveGroups`) builds the classic-shaped record for every
  group, whatever the group's type.

Files:

- `js_values.dfy` (module `JsValues`): JavaScript values, JSON documents,
  stringify and parse, truthiness, strict equality.
- `projection.dfy` (module `Projection`): the filter and the note and group projections.
- `notes_codec.dfy` (module `NotesCodec`): the envelope, `saveNotes`' payload,
  `loadNotes`' decoding, and the round-trip lemmas.
- `upsert.dfy` (module `Upsert`): `findIndex`, the shallow merge and the list change
  made by `updateNotes`.
- `note_store.dfy` (module `NoteStore`): the class `RemoteNotes`. Its field `blob`
  holds the value stored under the notes key. Its methods load, save and update.

JSON text is abstracted. A stored value is either a JSON document (`Blob.Text`) or
text that does not parse (`Blob.Unparsable`). `ToJson` is what `JSON.stringify`
writes: an `undefined` array slot becomes `null`, and an `undefined` property is
omitted. `FromJson` is what `JSON.parse` builds. Whether each request reaches the
store is an input: a `bool` for a single request, and a `Network` for the three
requests of one update.

Three behaviours of the code are kept as written:

- `updateNotes` finds the note's index in a null-filtered copy and uses it on the
  unfiltered array (`src/api/apiService.js:111-119`). `Upsert.Upserted` reproduces
  this; `MergeLandsOnMatchIff` and `MisplacedMergeExample` show its effect.
- A note without a `type` projects to an `undefined` slot, which is stored as `null`
  (`UnknownTypeReadsBackNull`). Updating `[{id: 1, title: "A"}]` with
  `{id: 1, title: "B"}` gives `[{id: 1, title: "B"}]` as the list `Upserted`
  computes, but the store then holds `[null]`.
- When `loadNotes` returns `null`, the destructuring on line 97 throws a
  `TypeError` before the `if (!notes)` check is reached. The update fails with
  nothing written (`Failed`).

## Model

| member | source | states |
|---|---|---|
| `JsValues.ParseStringified` | src/api/apiService.js:83-86 | parsing a stringified value that holds no `undefined` gives back that value |
| `JsValues.StringifyParsed` | src/api/apiService.js:25 | stringifying a parsed document gives back that document |
| `JsValues.ParsedIsSafe` | src/api/apiService.js:25 | a value built by `JSON.parse` never holds `undefined` |
| `JsValues.UndefinedAfterRoundTrip` | src/api/apiService.js:83-86 | through a round trip, an `undefined` array slot comes back as `null`, and an object loses exactly its `undefined` properties |
| `JsValues.SurvivorsAreSafe` | src/api/apiService.js:25-86 | a value that a stringify/parse round trip leaves unchanged holds no `undefined`, so together with `ParseStringified` the round trip keeps exactly the values without `undefined` |
| `JsValues.Get` | src/api/apiService.js:53-78 | reading a property gives the object's own value for a present key and `undefined` for a missing key or a value that is not a plain object |
| `JsValues.ToJson` | src/api/apiService.js:83-86 | stringifying writes `null` exactly for `undefined` and `null`, and keeps whether a value is an array (with its length) or an object |
| `JsValues.FromJson` | src/api/apiService.js:25 | parsing never builds `undefined`; it builds `null` exactly from `null`, and keeps whether a document is an array (with its length) or an object |
| `JsValues.Truthy` | src/api/apiService.js:32 | a value is truthy if and only if it is none of `undefined`, `null`, `false`, `0` and `""` |
| `JsValues.StrictEquals` | src/api/apiService.js:113 | strictly equal values are equal; an array or object is never strictly equal to anything; other values are strictly equal exactly when equal |
| `Projection.FilteredEntries` | src/api/apiService.js:52 | the filtered list holds only input entries, none of them `null`/`undefined`; it equals the input when the input has no `null`/`undefined` |
| `Projection.NonNullPosition` | src/api/apiService.js:52 | slot `j` of the filtered list is an input entry at an index no smaller than `j` |
| `Projection.NonNullPositionCount` | src/api/apiService.js:52 | that index is `j` plus the number of `null`/`undefined` entries before it |
| `Projection.FilteredKeepsOrder` | src/api/apiService.js:52 | kept entries appear in the same order as in the input |
| `Projection.FilteredKeepsEveryEntry` | src/api/apiService.js:52 | every entry that is not `null`/`undefined` is kept, so exactly those are removed |
| `Projection.FilteredAppend` | src/api/apiService.js:52 | filtering a concatenation is the concatenation of the filtered parts |
| `Projection.FilteredReadBack` | src/api/apiService.js:52 | filtering after a JSON round trip equals filtering before it and then round-tripping: a `null` or `undefined` slot comes back as the `null` that the filter drops |
| `Projection.ProjectNoteShape` | src/api/apiService.js:53-78 | a "classic" note becomes a record of exactly id, title, content, timestamp, utente, isEditing and type, each read from the note; a "list" note becomes the same record with `items` in place of `content`; any other `type` gives `undefined` |
| `Projection.Filtered` | src/api/apiService.js:52 | the filtered list is never longer than its input |
| `Projection.ProjectNote` | src/api/apiService.js:53-78 | a note's record is `undefined` or an object with exactly the classic or the list properties; a record carries the note's own `type` and `id` |
| `Projection.PickAfterRoundTrip` | src/api/apiService.js:53-86 | picking the canonical properties again from a record read back through JSON stringifies to the document the record was stored as |
| `Projection.ResaveWritesSameDocument` | src/api/apiService.js:53-86 | a classic or list note read back from the store and projected again is written as the same JSON document it was stored as; any other note is stored as `null`, and `ResaveDropsUnknownNotes` says what the next save does with it |
| `Projection.ProjectNotes` | src/api/apiService.js:52-78 | there is one slot per non-null note, and slot `j` is the projection of the `j`-th non-null note of the input |
| `Projection.UndefinedSlots` | src/api/apiService.js:53-78 | a slot is `undefined` if and only if its note's `type` is neither "classic" nor "list" |
| `Projection.ProjectGroup` | src/api/apiService.js:155-165 | a group's record is an object with exactly the seven classic properties, each read from the group |
| `Projection.ProjectGroups` | src/api/apiService.js:154-166 | there is one record per non-null group, and record `j` is the classic-shaped projection of the `j`-th non-null group |
| `Projection.GroupProjectionIsClassic` | src/api/apiService.js:155-165 | a group's record equals the note projection if and only if the group's `type` is \"classic\" |
| `NotesCodec.EncodeNotes` | src/api/apiService.js:48-94 | `saveNotes` produces a payload exactly when `notes` is an array; the payload is a two-element JSON array whose element 0 is the stringified projected notes and whose element 1 is `[{isOccupied: flag}]` |
| `NotesCodec.IndexZero` | src/api/apiService.js:32 | `v[0]` is an array's first element or an object's property "0", and `undefined` for an empty array, a missing property, a boolean or a number; only an array or an object can give an entry with `isOccupied` |
| `NotesCodec.OccupancyOf` | src/api/apiService.js:32 | reading the status fails exactly when the second element is `null`/`undefined`; a boolean, number or string second element, an empty array, or an array whose first entry is not an object reads as `false`; otherwise the first entry's `isOccupied` is kept if truthy and read as `false` if not |
| `NotesCodec.DecodeNotes` | src/api/apiService.js:20-46 | the load succeeds if and only if the fetch delivered parsable text whose value is a two-element array with a non-null second element; the notes are element 0; the status is truthy or `false` |
| `NotesCodec.DecodeEncoded` | src/api/apiService.js:25-86 | decoding what `saveNotes(notes, flag)` wrote gives the projected notes as they come back through JSON, with occupancy `flag` |
| `NotesCodec.ExactRoundTrip` | src/api/apiService.js:25-86 | when every non-null note has a known `type` and all its canonical properties are defined, decoding gives exactly the projected notes and `flag` |
| `NotesCodec.UnknownTypeReadsBackNull` | src/api/apiService.js:53-86 | a note of unknown `type` is read back as `null` |
| `NotesCodec.OccupancyDefaults` | src/api/apiService.js:31-32 | for a stored document: a `null` second element makes the load fail; an empty second element, a first entry that is not an object, or a boolean, number or string second element reads as `false`; an object first entry (or an object second element's property "0") gives its `isOccupied` if truthy and `false` otherwise |
| `NotesCodec.ResaveDropsUnknownNotes` | src/api/apiService.js:25-86 | saving again the notes a load returned writes the previously stored records without their `null` slots: a note of unknown type is not written again, and every other record is written unchanged |
| `Upsert.Upserted` | src/api/apiService.js:111-119 | the list grows by at most one element, and only by the patch at its end; every slot except the filtered index is unchanged |
| `Upsert.IdIndex` | src/api/apiService.js:113 | the result is the first index whose note's `id` is strictly equal to `noteId`, or -1 if and only if no note matches |
| `Upsert.Merge` | src/api/apiService.js:119 | the merged record has the properties of both values, and the patch's value wins on shared keys |
| `Upsert.UpsertPresent` | src/api/apiService.js:111-119 | with no `null`/`undefined` entries, the first note with the id becomes the merge of note and patch; every other note and the length are unchanged |
| `Upsert.UpsertAbsent` | src/api/apiService.js:113-119 | when no non-null note has the id, the result is the input with the patch appended once; the `notes[-1]` write adds no element |
| `Upsert.UpsertLength` | src/api/apiService.js:111-119 | the length is unchanged when some non-null note has the id and grows by exactly one otherwise |
| `Upsert.MergeLandsOnMatchIff` | src/api/apiService.js:111-119 | the merge is applied at the filtered index `j`, while the matching note sits at `p >= j`; `j == p` if and only if no `null`/`undefined` entry precedes the match; the length and every slot other than `j` are unchanged |
| `Upsert.MisplacedMergeExample` | src/api/apiService.js:111-119 | for `[null, A, B]` and B's id, A receives the patch and B is left unchanged |
| `NoteStore.Fetch` | src/api/apiService.js:130-136 | a fetch delivers something if and only if its request succeeds, and what it delivers is the stored value |
| `NoteStore.RemoteNotes.LoadNotes` | src/api/apiService.js:20-46 | the load result is the decoding of what the fetch delivered; success implies the stored text parsed to an accepted shape |
| `NoteStore.RemoteNotes.SaveNotes` | src/api/apiService.js:48-94 | the save succeeds if and only if `notes` is an array and the request succeeds; the store then holds the encoded envelope and the write is logged; otherwise nothing changes |
| `NoteStore.RemoteNotes.UpdateNotes` | src/api/apiService.js:95-128 | a failed load or falsy notes fails with no write; a truthy occupancy gives `Busy` with no write; otherwise the marking write (occupancy `true`) comes first and then the write of `Upserted` (occupancy `false`), in that order; a failed request stops the sequence where it fails |
| `NoteStore.OccupancyAfterWrites` | src/api/apiService.js:102-123 | after the marking write the store reads back occupied, so a later update whose fetch succeeds gets `Busy` (by `UpdateNotes`' second postcondition); after the committing write it reads back free, holding the changed notes |

## Left out

- The HTTP client is not modelled: axios, the base URL, the headers, and `makeONORequest`'s transport. Each request's success is an input instead. A failed write is taken to store nothing.
- The `.data.data` path that `getAllNotes` and `loadNotes` read from the response is not modelled. A response without that text is a failed fetch (`Response.Lost`).
- The `sessionStorage` writes at module load are not modelled. They have no effect on the notes.
- The 500 ms sleep and the unbounded recursive retry in `updateNotes` are not modelled. One attempt ends in `Busy` with the store unchanged. Timing and termination of the retries are out of scope.
- Races between independent clients on the occupancy flag (the lost update) are not modelled. The model is one client acting alone.
- The remote group operations are not modelled: `saveGroups`' write, `getAllGroups`, `loadGroups` and `updateGroups`. Only the group projection is modelled. `saveGroups` (line 169) and `getAllGroups` (line 187) throw a `ReferenceError` on the undeclared `groupCode`. `loadGroups` catches it and returns `null`. `updateGroups` then throws a `TypeError` at line 195, before its undeclared `noteIndex` (line 217) is reached.
- The JSON text itself is not modelled: its character syntax, property order and number formatting. Numbers are whole numbers, so NaN, fractions and -0 do not arise.
- `console.log`, `console.warn` and `console.error` output is not modelled.
- `NoteStore.RemoteNotes.SaveNotes` takes a boolean occupancy flag. A non-boolean `isOccupiedFromServer` passed by an outside caller is not modelled.
- `Upsert.Merge`: spreading a string or an array copies no properties here. JavaScript would copy its indexed elements.
- `JsValues.StrictEquals`: arrays and objects are never strictly equal. This holds because a freshly parsed array or object cannot be the caller's own reference.
- The `notes[-1]` property set on the append path is not represented. `JSON.stringify` ignores it, so the saved value is unaffected.
