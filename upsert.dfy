/**
 * The list change `updateNotes` makes between its two writes: look the note up
 * by `id` among the non-null entries, then either append the patch or
 * shallow-merge it over an element of the unfiltered array.
 *
 * The index is found in the filtered copy and used on the unfiltered array, so a
 * `null`/`undefined` entry in front of the match makes the merge land on the
 * wrong slot; this module reproduces that and `MergeLandsOnMatchIff` says exactly
 * when it happens.
 */
module Upsert {
  import opened JsValues
  import opened Projection

  /** `findIndex(note => note.id === noteId)` over entries that are not null or
      undefined: the first matching index, or -1. */
  function IdIndex(valid: seq<Value>, noteId: Value): (r: int)
    ensures -1 <= r < |valid|
    ensures r >= 0 ==> StrictEquals(Get(valid[r], "id"), noteId)
    ensures r >= 0 ==> forall i :: 0 <= i < r ==> !StrictEquals(Get(valid[i], "id"), noteId)
    ensures r == -1 <==> forall i :: 0 <= i < |valid| ==> !StrictEquals(Get(valid[i], "id"), noteId)
  {
    if valid == [] then -1
    else if StrictEquals(Get(valid[0], "id"), noteId) then 0
    else
      var k := IdIndex(valid[1..], noteId);
      if k == -1 then -1 else k + 1
  }

  /** The own enumerable properties `{...v}` copies. Spreading null, undefined, a
      boolean or a number copies nothing. */
  function OwnProperties(v: Value): map<string, Value> {
    if v.Obj? then v.fields else map[]
  }

  /** `{...base, ...patch}`: every property of either, the patch's value winning. */
  function Merge(base: Value, patch: Value): (r: Value)
    ensures r.Obj?
    ensures r.fields.Keys == OwnProperties(base).Keys + OwnProperties(patch).Keys
    ensures forall k :: k in OwnProperties(patch) ==> r.fields[k] == OwnProperties(patch)[k]
    ensures forall k :: k in OwnProperties(base) && k !in OwnProperties(patch) ==>
      r.fields[k] == OwnProperties(base)[k]
  {
    Obj(OwnProperties(base) + OwnProperties(patch))
  }

  /** The array `updateNotes` saves with occupancy false, as the code computes it:
      when nothing matches, `push` appends the patch and `notes[-1] = ...` then sets a
      property that is not an element, so the elements are `notes + [patch]`;
      otherwise the index found in the filtered copy is used on `notes` itself. */
  function Upserted(notes: seq<Value>, noteId: Value, patch: Value): (r: seq<Value>)
    ensures |r| == |notes| || |r| == |notes| + 1
    ensures |r| == |notes| + 1 ==> r[|notes|] == patch
    ensures forall i :: 0 <= i < |notes| && i != IdIndex(Filtered(notes), noteId) ==> r[i] == notes[i]
  {
    var j := IdIndex(Filtered(notes), noteId);
    if j == -1 then notes + [patch]
    else notes[j := Merge(notes[j], patch)]
  }

  /** With no `null`/`undefined` entries, updating a present id merges the patch over
      the first note carrying it and leaves every other note and the length as they were. */
  lemma UpsertPresent(notes: seq<Value>, noteId: Value, patch: Value, k: nat)
    requires forall i :: 0 <= i < |notes| ==> !Nullish(notes[i])
    requires k < |notes| && StrictEquals(Get(notes[k], "id"), noteId)
    requires forall i :: 0 <= i < k ==> !StrictEquals(Get(notes[i], "id"), noteId)
    ensures |Upserted(notes, noteId, patch)| == |notes|
    ensures Upserted(notes, noteId, patch)[k] == Merge(notes[k], patch)
    ensures forall i :: 0 <= i < |notes| && i != k ==> Upserted(notes, noteId, patch)[i] == notes[i]
  {
    FilteredEntries(notes);
    assert IdIndex(notes, noteId) == k;
  }

  /** When no non-null note carries the id, the patch is appended once, whatever
      `null`/`undefined` entries the array holds. */
  lemma UpsertAbsent(notes: seq<Value>, noteId: Value, patch: Value)
    requires forall i :: 0 <= i < |notes| && !Nullish(notes[i]) ==> !StrictEquals(Get(notes[i], "id"), noteId)
    ensures Upserted(notes, noteId, patch) == notes + [patch]
    ensures |Upserted(notes, noteId, patch)| == |notes| + 1
  {
    var valid := Filtered(notes);
    FilteredEntries(notes);
    forall j | 0 <= j < |valid| ensures !StrictEquals(Get(valid[j], "id"), noteId) {
      var p := NonNullPosition(notes, j);
    }
  }

  /** Whether the update is an append or a merge depends only on whether some non-null
      note carries the id; a merge never changes the length. */
  lemma UpsertLength(notes: seq<Value>, noteId: Value, patch: Value)
    ensures var present := exists i :: 0 <= i < |notes| && !Nullish(notes[i]) && StrictEquals(Get(notes[i], "id"), noteId);
      |Upserted(notes, noteId, patch)| == if present then |notes| else |notes| + 1
  {
    var valid := Filtered(notes);
    var j := IdIndex(valid, noteId);
    if exists i :: 0 <= i < |notes| && !Nullish(notes[i]) && StrictEquals(Get(notes[i], "id"), noteId) {
      var i :| 0 <= i < |notes| && !Nullish(notes[i]) && StrictEquals(Get(notes[i], "id"), noteId);
      FilteredKeepsEveryEntry(notes, i);
      var m: nat :| m < |valid| && NonNullPosition(notes, m) == i;
      assert StrictEquals(Get(valid[m], "id"), noteId);
    } else {
      UpsertAbsent(notes, noteId, patch);
    }
  }

  /** The merge lands on the note that matched exactly when no `null`/`undefined`
      entry comes before that note; otherwise it lands on an earlier slot. */
  lemma MergeLandsOnMatchIff(notes: seq<Value>, noteId: Value, patch: Value)
    requires IdIndex(Filtered(notes), noteId) != -1
    ensures var j := IdIndex(Filtered(notes), noteId);
      var p := NonNullPosition(notes, j);
      && StrictEquals(Get(notes[p], "id"), noteId)
      && j <= p
      && (j == p <==> forall i :: 0 <= i < p ==> !Nullish(notes[i]))
      && |Upserted(notes, noteId, patch)| == |notes|
      && Upserted(notes, noteId, patch)[j] == Merge(notes[j], patch)
      && forall i :: 0 <= i < |notes| && i != j ==> Upserted(notes, noteId, patch)[i] == notes[i]
  {
    var j := IdIndex(Filtered(notes), noteId);
    var p := NonNullPosition(notes, j);
    NonNullPositionCount(notes, j);
    assert forall i :: 0 <= i < p ==> notes[..p][i] == notes[i];
  }

  /** A concrete instance of the misplaced merge: with `[null, A, B]` and B's id, the
      filtered index is 1, so A (not B) receives the patch and B is left as it was. */
  lemma MisplacedMergeExample()
    ensures var a := Obj(map["id" := Num(1)]);
      var b := Obj(map["id" := Num(2)]);
      var patch := Obj(map["id" := Num(2), "title" := Str("X")]);
      Upserted([Null, a, b], Num(2), patch) == [Null, Obj(map["id" := Num(2), "title" := Str("X")]), b]
  {
    var a := Obj(map["id" := Num(1)]);
    var b := Obj(map["id" := Num(2)]);
    var patch := Obj(map["id" := Num(2), "title" := Str("X")]);
    assert Filtered([Null, a, b]) == [a, b] by {
      assert [Null, a, b][1..] == [a, b];
      assert [a, b][1..] == [b];
      assert [b][1..] == [];
    }
    assert IdIndex([a, b], Num(2)) == 1 by {
      assert [a, b][1..] == [b];
    }
    assert Merge(a, patch).fields == patch.fields;
  }
}
