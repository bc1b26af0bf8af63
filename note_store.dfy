/**
 * The notes side of the client as it talks to the remote key/value store:
 * `loadNotes`, `saveNotes` and `updateNotes` with its occupancy protocol.
 *
 * The store is one object whose field holds the value last written under the
 * notes key. Whether each request reaches the store is given by the caller (a
 * `Network`), since the transport is outside the model. The retry that
 * `updateNotes` schedules when the store is occupied becomes the `Busy` outcome.
 */
module NoteStore {
  import opened JsValues
  import opened Projection
  import opened NotesCodec
  import opened Upsert

  /** Whether each request of one `updateNotes` call succeeds: the fetch, the write
      that marks the store occupied, and the write that commits the change. */
  datatype Network = Network(fetch: bool, mark: bool, commit: bool)

  /** How `updateNotes` ends: it resolves, it would sleep and retry, or it throws. */
  datatype UpdateOutcome = Updated | Busy | Failed

  /** The response a fetch of `blob` produces over a request that does or does not succeed. */
  function Fetch(blob: Blob, delivered: bool): (r: Response)
    ensures r.Delivered? <==> delivered
    ensures delivered ==> r == Delivered(blob)
  {
    if delivered then Delivered(blob) else Lost
  }

  class RemoteNotes {
    /** The value stored under the notes key. */
    var blob: Blob
    /** Every value written under the notes key, oldest first. */
    ghost var writes: seq<Blob>

    constructor (initial: Blob)
      ensures blob == initial && writes == []
    {
      blob := initial;
      writes := [];
    }

    /** `loadNotes`: never throws; a failed request, unparsable text or a payload of
        the wrong shape all give `None`. */
    method LoadNotes(delivered: bool) returns (r: Option<LoadedNotes>)
      ensures r == DecodeNotes(Fetch(blob, delivered))
      ensures r.Some? ==> delivered && blob.Text? && Accepted(FromJson(blob.doc))
    {
      r := DecodeNotes(Fetch(blob, delivered));
    }

    /** `saveNotes(notes, flag)`: projects the notes and overwrites the stored value
        with the envelope. Returns false where the code throws: `notes` is not an
        array, or the request fails; the store is then left as it was. */
    method SaveNotes(notes: Value, flag: bool, delivered: bool) returns (ok: bool)
      modifies this
      ensures ok <==> notes.Arr? && delivered
      ensures ok ==> blob == EncodeNotes(notes, flag).value && writes == old(writes) + [blob]
      ensures !ok ==> blob == old(blob) && writes == old(writes)
    {
      var encoded := EncodeNotes(notes, flag);
      if encoded.None? || !delivered {
        return false;
      }
      blob := encoded.value;
      writes := writes + [blob];
      ok := true;
    }

    /** `updateNotes(noteId, patch)`, one attempt. A failed load or a falsy notes value
        throws before anything is written; a truthy occupancy means retry with nothing
        written; otherwise the collection is written back marked occupied, changed by
        `Upserted`, and written again marked free. */
    method UpdateNotes(noteId: Value, patch: Value, net: Network) returns (outcome: UpdateOutcome)
      modifies this
      ensures var loaded := DecodeNotes(Fetch(old(blob), net.fetch));
        loaded.None? || !Truthy(loaded.value.notes) ==>
          outcome == Failed && blob == old(blob) && writes == old(writes)
      ensures var loaded := DecodeNotes(Fetch(old(blob), net.fetch));
        loaded.Some? && Truthy(loaded.value.notes) && Truthy(loaded.value.occupancy) ==>
          outcome == Busy && blob == old(blob) && writes == old(writes)
      ensures var loaded := DecodeNotes(Fetch(old(blob), net.fetch));
        loaded.Some? && Truthy(loaded.value.notes) && !Truthy(loaded.value.occupancy) ==>
          var notes := loaded.value.notes;
          if !notes.Arr? || !net.mark then
            outcome == Failed && blob == old(blob) && writes == old(writes)
          else
            var marked := EncodeNotes(notes, true).value;
            var committed := EncodeNotes(Arr(Upserted(notes.elems, noteId, patch)), false).value;
            if !net.commit then
              outcome == Failed && blob == marked && writes == old(writes) + [marked]
            else
              outcome == Updated && blob == committed && writes == old(writes) + [marked, committed]
      ensures outcome == Busy ==> blob == old(blob) && writes == old(writes)
    {
      var loaded := LoadNotes(net.fetch);
      if loaded.None? || !Truthy(loaded.value.notes) {
        return Failed;
      }
      if Truthy(loaded.value.occupancy) {
        return Busy;
      }
      var notes := loaded.value.notes;
      var markedOk := SaveNotes(notes, true, net.mark);
      if !markedOk {
        return Failed;
      }
      var elems := notes.elems;
      var noteIndex := IdIndex(Filtered(elems), noteId);
      if noteIndex == -1 {
        elems := elems + [patch];
      } else {
        // `notes[-1] = ...` on the append path sets a property that is not an
        // element, so only a found index changes the elements.
        elems := elems[noteIndex := Merge(elems[noteIndex], patch)];
      }
      var committedOk := SaveNotes(Arr(elems), false, net.commit);
      outcome := if committedOk then Updated else Failed;
    }
  }

  /** After the marking write the store reads back as occupied, so when an attempt
      loses its committing write, every later attempt whose fetch succeeds is `Busy`
      (by `UpdateNotes`' second postcondition); after the committing write it reads
      back free, holding the changed notes. */
  lemma OccupancyAfterWrites(notes: seq<Value>, noteId: Value, patch: Value)
    ensures var marked := DecodeNotes(Delivered(EncodeNotes(Arr(notes), true).value));
      && marked.Some? && Truthy(marked.value.notes) && Truthy(marked.value.occupancy)
    ensures var committed := DecodeNotes(Delivered(EncodeNotes(Arr(Upserted(notes, noteId, patch)), false).value));
      && committed == Some(LoadedNotes(FromJson(ToJson(Arr(ProjectNotes(Upserted(notes, noteId, patch))))), Bool(false)))
      && !Truthy(committed.value.occupancy)
  {
    DecodeEncoded(notes, true);
    DecodeEncoded(Upserted(notes, noteId, patch), false);
  }
}
