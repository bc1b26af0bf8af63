/**
 * The notes envelope: what `saveNotes` writes to the remote store and what
 * `loadNotes` accepts back from it.
 *
 * The payload is the two-element array `[records, [{isOccupied: flag}]]`,
 * stringified. Reading it back accepts any parsed value that is an array of
 * exactly two elements and never throws: every failure becomes `None`
 * (the `null` that `loadNotes` returns).
 */
module NotesCodec {
  import opened JsValues
  import opened Projection

  datatype Option<T> = None | Some(value: T)

  /** What the fetch of the notes key delivered: nothing usable (the request failed,
      or the response lacked its data text), or the stored text. */
  datatype Response = Lost | Delivered(body: Blob)

  /** What `loadNotes` returns on success: the first element of the envelope, and
      the occupancy status, which keeps whatever truthy value the store held. */
  datatype LoadedNotes = LoadedNotes(notes: Value, occupancy: Value)

  const OccupancyKey := "isOccupied"

  /** The value `saveNotes` stringifies: `[records, [{isOccupied: flag}]]`. */
  function Envelope(records: seq<Value>, flag: bool): Value {
    Arr([Arr(records), Arr([Obj(map[OccupancyKey := Bool(flag)])])])
  }

  /** What `saveNotes(notes, flag)` writes, or `None` when it throws: only an array
      has the `filter` it calls; nothing later in it can throw. */
  function EncodeNotes(notes: Value, flag: bool): (r: Option<Blob>)
    ensures r.Some? <==> notes.Arr?
    ensures r.Some? ==> r.value.Text? && r.value.doc.JArr? && |r.value.doc.elems| == 2
    ensures r.Some? ==> r.value.doc.elems[0] == ToJson(Arr(ProjectNotes(notes.elems)))
    ensures r.Some? ==> r.value.doc.elems[1] == JArr([JObj(map[OccupancyKey := JBool(flag)])])
  {
    if notes.Arr? then
      var records := Arr(ProjectNotes(notes.elems));
      var entry := Obj(map[OccupancyKey := Bool(flag)]);
      assert ToJson(Envelope(records.elems, flag)).elems == [ToJson(records), ToJson(Arr([entry]))];
      assert ToJson(Arr([entry])).elems == [ToJson(entry)];
      assert ToJson(entry).fields == map[OccupancyKey := JBool(flag)];
      Some(Text(ToJson(Envelope(records.elems, flag))))
    else None
  }

  /** `v[0]` for a value that is not null or undefined. */
  function IndexZero(v: Value): (r: Value)
    requires !Nullish(v)
    ensures v.Arr? ==> r == (if |v.elems| > 0 then v.elems[0] else Undefined)
    ensures v.Obj? ==> r == (if "0" in v.fields then v.fields["0"] else Undefined)
    ensures v.Bool? || v.Num? ==> r == Undefined
    ensures Get(r, OccupancyKey) != Undefined ==> v.Arr? || v.Obj?
  {
    match v
    case Arr(es) => if |es| > 0 then es[0] else Undefined
    case Obj(_) => Get(v, "0")
    case Str(s) => if |s| > 0 then Str([s[0]]) else Undefined
    case _ => Undefined
  }

  /** `meta[0]?.isOccupied || false`, or `None` where `meta[0]` throws because
      `meta` itself is null or undefined. */
  function OccupancyOf(meta: Value): (r: Option<Value>)
    ensures r.None? <==> Nullish(meta)
    ensures r.Some? ==> Truthy(r.value) || r.value == Bool(false)
    ensures !Nullish(meta) && !meta.Arr? && !meta.Obj? ==> r == Some(Bool(false))
    ensures meta.Arr? && (|meta.elems| == 0 || !meta.elems[0].Obj?) ==> r == Some(Bool(false))
    ensures meta.Arr? && |meta.elems| > 0 && meta.elems[0].Obj? ==>
      var stored := Get(meta.elems[0], OccupancyKey);
      r == Some(if Truthy(stored) then stored else Bool(false))
  {
    if Nullish(meta) then None
    else
      var first := IndexZero(meta);
      var flag := if Nullish(first) then Undefined else Get(first, OccupancyKey);
      Some(if Truthy(flag) then flag else Bool(false))
  }

  /** The shape check `loadNotes` makes on the parsed payload. */
  predicate Accepted(v: Value) {
    v.Arr? && |v.elems| == 2 && !Nullish(v.elems[1])
  }

  /** `loadNotes`: parse the fetched text and check its shape; any failure is `None`. */
  function DecodeNotes(resp: Response): (r: Option<LoadedNotes>)
    ensures r.Some? <==> resp.Delivered? && resp.body.Text? && Accepted(FromJson(resp.body.doc))
    ensures r.Some? ==> r.value.notes == FromJson(resp.body.doc).elems[0]
    ensures r.Some? ==> Truthy(r.value.occupancy) || r.value.occupancy == Bool(false)
  {
    if resp.Lost? || resp.body.Unparsable? then None
    else
      var parsed := FromJson(resp.body.doc);
      if parsed.Arr? && |parsed.elems| == 2 then
        match OccupancyOf(parsed.elems[1])
        case None => None
        case Some(occupancy) => Some(LoadedNotes(parsed.elems[0], occupancy))
      else None
  }

  /** Decoding what `saveNotes(notes, flag)` wrote gives the projected notes as they
      come back through JSON, and exactly the occupancy flag that was written. */
  lemma DecodeEncoded(notes: seq<Value>, flag: bool)
    ensures EncodeNotes(Arr(notes), flag).Some?
    ensures DecodeNotes(Delivered(EncodeNotes(Arr(notes), flag).value))
      == Some(LoadedNotes(FromJson(ToJson(Arr(ProjectNotes(notes)))), Bool(flag)))
  {
    var meta := Arr([Obj(map[OccupancyKey := Bool(flag)])]);
    var env := Envelope(ProjectNotes(notes), flag);
    assert Safe(meta) by {
      assert Safe(Obj(map[OccupancyKey := Bool(flag)]));
    }
    ParseStringified(meta);
    var parsed := FromJson(ToJson(env));
    assert parsed.elems[0] == FromJson(ToJson(Arr(ProjectNotes(notes))));
    assert parsed.elems[1] == meta;
    assert IndexZero(meta) == Obj(map[OccupancyKey := Bool(flag)]);
  }

  /** A note whose canonical record survives JSON unchanged: its `type` is one of the
      two known ones and none of its canonical properties is missing or holds `undefined`. */
  predicate WellFormedNote(note: Value) {
    var keys := if Get(note, "type") == Str("classic") then ClassicKeys else ListKeys;
    && (Get(note, "type") == Str("classic") || Get(note, "type") == Str("list"))
    && forall k :: k in keys ==> Safe(Get(note, k))
  }

  /** For a collection whose non-null notes are all well formed, decoding what was
      saved gives back exactly the projected notes. */
  lemma {:induction false} ExactRoundTrip(notes: seq<Value>, flag: bool)
    requires forall i :: 0 <= i < |notes| && !Nullish(notes[i]) ==> WellFormedNote(notes[i])
    ensures DecodeNotes(Delivered(EncodeNotes(Arr(notes), flag).value))
      == Some(LoadedNotes(Arr(ProjectNotes(notes)), Bool(flag)))
  {
    var projected := ProjectNotes(notes);
    FilteredEntries(notes);
    forall j | 0 <= j < |projected| ensures Safe(projected[j]) {
      var p := NonNullPosition(notes, j);
      assert WellFormedNote(notes[p]);
      ProjectNoteShape(notes[p]);
    }
    ParseStringified(Arr(projected));
    DecodeEncoded(notes, flag);
  }

  /** An entry that projected to an `undefined` slot (a note of unknown `type`) is
      read back as `null`. */
  lemma UnknownTypeReadsBackNull(notes: seq<Value>, flag: bool, j: nat)
    requires j < |ProjectNotes(notes)| && ProjectNotes(notes)[j] == Undefined
    ensures DecodeNotes(Delivered(EncodeNotes(Arr(notes), flag).value)).Some?
    ensures DecodeNotes(Delivered(EncodeNotes(Arr(notes), flag).value)).value.notes.elems[j] == Null
  {
    DecodeEncoded(notes, flag);
    UndefinedAfterRoundTrip(Arr(ProjectNotes(notes)));
  }

  /** How the occupancy status is read: a `null` second element makes the load fail;
      an empty second element, a first entry that is not an object, and a second
      element that is a boolean, number or string all read as `false`; otherwise the
      first entry's `isOccupied` is kept if truthy and read as `false` if not. A second
      element that is an object has its property "0" as the first entry. */
  lemma OccupancyDefaults(records: Json, meta: Json)
    ensures var r := DecodeNotes(Delivered(Text(JArr([records, meta]))));
      && (meta == JNull ==> r.None?)
      && (meta == JArr([]) ==> r == Some(LoadedNotes(FromJson(records), Bool(false))))
      && (meta.JArr? && |meta.elems| > 0 && meta.elems[0].JObj? ==>
            var fs := meta.elems[0].fields;
            var stored := if OccupancyKey in fs then FromJson(fs[OccupancyKey]) else Undefined;
            r == Some(LoadedNotes(FromJson(records), if Truthy(stored) then stored else Bool(false))))
      && (meta.JArr? && |meta.elems| > 0 && !meta.elems[0].JObj? ==>
            r == Some(LoadedNotes(FromJson(records), Bool(false))))
      && (!meta.JArr? && !meta.JObj? && meta != JNull ==>
            r == Some(LoadedNotes(FromJson(records), Bool(false))))
      && (meta.JObj? ==>
            var first := if "0" in meta.fields then FromJson(meta.fields["0"]) else Undefined;
            var stored := Get(first, OccupancyKey);
            r == Some(LoadedNotes(FromJson(records), if Truthy(stored) then stored else Bool(false))))
  {
    var doc := JArr([records, meta]);
    assert FromJson(doc).elems == [FromJson(records), FromJson(meta)];
    if meta.JArr? && |meta.elems| > 0 && meta.elems[0].JObj? {
      assert IndexZero(FromJson(meta)) == FromJson(meta.elems[0]);
    }
  }

  /** Saving again the notes a load returned writes the records stored before with
      their `null` slots dropped: a note of unknown type, stored as `null`, is filtered
      out and so is not written again, and every other record is written as it was. */
  lemma ResaveDropsUnknownNotes(notes: seq<Value>, flag: bool, again: bool)
    ensures var loaded := DecodeNotes(Delivered(EncodeNotes(Arr(notes), flag).value));
      && loaded.Some?
      && EncodeNotes(loaded.value.notes, again).Some?
      && EncodeNotes(loaded.value.notes, again).value.doc.elems[0] == ToJson(Arr(Filtered(ProjectNotes(notes))))
  {
    DecodeEncoded(notes, flag);
    var stored := ProjectNotes(notes);
    var loaded := FromJson(ToJson(Arr(stored)));
    assert loaded.elems == ReadBack(stored);
    FilteredReadBack(stored);
    var kept := Filtered(stored);
    var again := ProjectNotes(loaded.elems);
    forall j | 0 <= j < |kept| ensures ToJson(again[j]) == ToJson(kept[j]) {
      var p := NonNullPosition(stored, j);
      var note := notes[NonNullPosition(notes, p)];
      assert again[j] == ProjectNote(FromJson(ToJson(ProjectNote(note))));
      ResaveWritesSameDocument(note);
    }
    SameArrayDocument(again, kept);
  }
}
