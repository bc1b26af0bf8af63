/**
 * The projection `saveNotes` and `saveGroups` apply before writing a collection:
 * drop the `null`/`undefined` entries, then map every remaining entry to its
 * canonical record, chosen for notes by the entry's `type`.
 */
module Projection {
  import opened JsValues

  /** The entries that survive `filter(x => x !== null && x !== undefined)`, in order. */
  function Filtered(s: seq<Value>): (r: seq<Value>)
    ensures |r| <= |s|
  {
    if s == [] then []
    else if Nullish(s[0]) then Filtered(s[1..])
    else [s[0]] + Filtered(s[1..])
  }

  /** The filtered list holds only entries of the input, none of them `null` or
      `undefined`, and is the input itself when the input has none. */
  lemma {:induction false} FilteredEntries(s: seq<Value>)
    ensures forall x :: x in Filtered(s) ==> x in s && !Nullish(x)
    ensures (forall i :: 0 <= i < |s| ==> !Nullish(s[i])) ==> Filtered(s) == s
  {
    if s != [] {
      FilteredEntries(s[1..]);
      if !Nullish(s[0]) {
        assert forall i :: 1 <= i < |s| ==> s[1..][i - 1] == s[i];
        assert [s[0]] + s[1..] == s;
      }
    }
  }

  /** How many entries of `s` are `null` or `undefined`. */
  function CountNullish(s: seq<Value>): (n: nat)
    ensures n <= |s|
    ensures n == 0 <==> forall i :: 0 <= i < |s| ==> !Nullish(s[i])
  {
    if s == [] then 0
    else (if Nullish(s[0]) then 1 else 0) + CountNullish(s[1..])
  }

  /** The index in `s` of the entry that lands at index `j` of `Filtered(s)`. */
  function NonNullPosition(s: seq<Value>, j: nat): (p: nat)
    requires j < |Filtered(s)|
    ensures j <= p < |s|
    ensures s[p] == Filtered(s)[j]
  {
    if !Nullish(s[0]) && j == 0 then 0
    else if Nullish(s[0]) then NonNullPosition(s[1..], j) + 1
    else NonNullPosition(s[1..], j - 1) + 1
  }

  /** The entry at index `j` of the filtered list lies after exactly `j` kept entries
      and every dropped entry before it. */
  lemma {:induction false} NonNullPositionCount(s: seq<Value>, j: nat)
    requires j < |Filtered(s)|
    ensures NonNullPosition(s, j) == j + CountNullish(s[..NonNullPosition(s, j)])
  {
    var p := NonNullPosition(s, j);
    var rest := s[1..];
    if !Nullish(s[0]) && j == 0 {
      assert s[..p] == [];
    } else {
      var j' := if Nullish(s[0]) then j else j - 1;
      NonNullPositionCount(rest, j');
      assert p == NonNullPosition(rest, j') + 1;
      assert s[..p][1..] == rest[..p - 1];
    }
  }

  /** Filtering keeps the order of the surviving entries. */
  lemma {:induction false} FilteredKeepsOrder(s: seq<Value>, j: nat, k: nat)
    requires j < k < |Filtered(s)|
    ensures NonNullPosition(s, j) < NonNullPosition(s, k)
  {
    if Nullish(s[0]) || j > 0 {
      var shift := if Nullish(s[0]) then 0 else 1;
      FilteredKeepsOrder(s[1..], j - shift, k - shift);
    }
  }

  /** Filtering removes nothing but `null`/`undefined`: every other entry lands somewhere. */
  lemma {:induction false} FilteredKeepsEveryEntry(s: seq<Value>, i: nat)
    requires i < |s| && !Nullish(s[i])
    ensures exists j: nat :: j < |Filtered(s)| && NonNullPosition(s, j) == i
  {
    var rest := s[1..];
    if i == 0 {
      assert [s[0]] + Filtered(rest) == Filtered(s);
      assert 0 < |Filtered(s)| && NonNullPosition(s, 0) == 0;
    } else {
      assert rest[i - 1] == s[i];
      FilteredKeepsEveryEntry(rest, i - 1);
      var j: nat :| j < |Filtered(rest)| && NonNullPosition(rest, j) == i - 1;
      if Nullish(s[0]) {
        assert Filtered(s) == Filtered(rest);
        assert NonNullPosition(s, j) == i;
      } else {
        assert Filtered(s) == [s[0]] + Filtered(rest);
        assert NonNullPosition(s, j + 1) == i;
      }
    }
  }

  /** Filtering distributes over concatenation, which is what keeping the order means. */
  lemma {:induction false} FilteredAppend(a: seq<Value>, b: seq<Value>)
    ensures Filtered(a + b) == Filtered(a) + Filtered(b)
  {
    if a == [] {
      assert a + b == b;
    } else {
      assert (a + b)[1..] == a[1..] + b;
      FilteredAppend(a[1..], b);
    }
  }

  // The seven properties of a canonical note record.
  const ClassicKeys: set<string> := {"id", "title", "content", "timestamp", "utente", "isEditing", "type"}
  const ListKeys: set<string> := {"id", "title", "items", "timestamp", "utente", "isEditing", "type"}

  /** A record holding exactly the properties `keys`, each read from `v`. */
  function Pick(v: Value, keys: set<string>): (r: Value)
    ensures r.Obj? && r.fields.Keys == keys
    ensures forall k :: k in keys ==> Get(r, k) == Get(v, k)
  {
    Obj(map k | k in keys :: Get(v, k))
  }

  /** The record `saveNotes` builds for one non-null note. A "classic" note keeps
      `content`, a "list" note keeps `items`; for any other `type` the callback
      returns nothing, so the slot is `undefined`. */
  function ProjectNote(note: Value): (r: Value)
    ensures r == Undefined || (r.Obj? && (r.fields.Keys == ClassicKeys || r.fields.Keys == ListKeys))
    ensures r != Undefined ==> Get(r, "type") == Get(note, "type") && Get(r, "id") == Get(note, "id")
  {
    if Get(note, "type") == Str("classic") then Pick(note, ClassicKeys)
    else if Get(note, "type") == Str("list") then Pick(note, ListKeys)
    else Undefined
  }

  /** What the projection of a note is, by its `type`. */
  lemma ProjectNoteShape(note: Value)
    ensures Get(note, "type") == Str("classic") ==>
      && ProjectNote(note).Obj?
      && ProjectNote(note).fields.Keys == ClassicKeys
      && forall k :: k in ClassicKeys ==> Get(ProjectNote(note), k) == Get(note, k)
    ensures Get(note, "type") == Str("list") ==>
      && ProjectNote(note).Obj?
      && ProjectNote(note).fields.Keys == ListKeys
      && forall k :: k in ListKeys ==> Get(ProjectNote(note), k) == Get(note, k)
    ensures Get(note, "type") != Str("classic") && Get(note, "type") != Str("list") ==>
      ProjectNote(note) == Undefined
  {
  }

  /** Reading a property of an object after a JSON round trip: a property that was
      `undefined` is gone, any other comes back as its own round trip. */
  lemma ReadBackProperty(v: Value, k: string)
    requires v.Obj?
    ensures Get(FromJson(ToJson(v)), k) ==
      if Get(v, k) == Undefined then Undefined else FromJson(ToJson(Get(v, k)))
  {
  }

  /** Two objects with the same properties, `undefined` in the same places and
      stringifying alike elsewhere, are stringified alike. */
  lemma SameDocument(a: map<string, Value>, b: map<string, Value>)
    requires a.Keys == b.Keys
    requires forall k :: k in a ==> (a[k] == Undefined <==> b[k] == Undefined)
    requires forall k :: k in a && a[k] != Undefined ==> ToJson(a[k]) == ToJson(b[k])
    ensures ToJson(Obj(a)) == ToJson(Obj(b))
  {
    assert ToJson(Obj(a)).fields == ToJson(Obj(b)).fields;
  }

  /** Picking the same properties again from a record that went through JSON, and
      stringifying, gives the document the record was stored as. */
  lemma PickAfterRoundTrip(v: Value, keys: set<string>)
    ensures ToJson(Pick(FromJson(ToJson(Pick(v, keys))), keys)) == ToJson(Pick(v, keys))
  {
    var p := Pick(v, keys);
    var r := Pick(FromJson(ToJson(p)), keys);
    forall k | k in keys
      ensures r.fields[k] == Undefined <==> p.fields[k] == Undefined
      ensures p.fields[k] != Undefined ==> ToJson(r.fields[k]) == ToJson(p.fields[k])
    {
      ReadBackProperty(p, k);
      if p.fields[k] != Undefined {
        ParsedIsSafe(ToJson(p.fields[k]));
        StringifyParsed(ToJson(p.fields[k]));
      }
    }
    SameDocument(r.fields, p.fields);
  }

  /** A classic or list note read back from the store and projected again is written
      as the same JSON document it was stored as: the record goes through JSON, which
      drops its `undefined` properties, and projecting it again restores the document.
      A note of any other type is stored as `null`, which the next save filters out
      before projecting; `ResaveDropsUnknownNotes` states that for a whole collection. */
  lemma ResaveWritesSameDocument(note: Value)
    ensures ToJson(ProjectNote(FromJson(ToJson(ProjectNote(note))))) == ToJson(ProjectNote(note))
  {
    if Get(note, "type") == Str("classic") {
      ReadBackType(note);
      PickAfterRoundTrip(note, ClassicKeys);
    } else if Get(note, "type") == Str("list") {
      ReadBackType(note);
      PickAfterRoundTrip(note, ListKeys);
    }
  }

  /** A projected note keeps its `type` through JSON. */
  lemma ReadBackType(note: Value)
    requires ProjectNote(note) != Undefined
    ensures Get(FromJson(ToJson(ProjectNote(note))), "type") == Get(note, "type")
  {
    ReadBackProperty(ProjectNote(note), "type");
  }

  /** Each entry of `s` as it comes back through JSON: the elements of
      `JSON.parse(JSON.stringify(s))`. */
  function ReadBack(s: seq<Value>): (r: seq<Value>)
    ensures |r| == |s|
    ensures forall i :: 0 <= i < |s| ==> r[i] == FromJson(ToJson(s[i]))
  {
    seq(|s|, i requires 0 <= i < |s| => FromJson(ToJson(s[i])))
  }

  /** Reading back a list, then filtering, is reading back the filtered list: a
      `null` or `undefined` slot comes back as the `null` the filter removes, and
      nothing else comes back nullish. */
  lemma {:induction false} FilteredReadBack(s: seq<Value>)
    ensures Filtered(ReadBack(s)) == ReadBack(Filtered(s))
  {
    if s != [] {
      var rest := s[1..];
      assert ReadBack(s)[1..] == ReadBack(rest);
      assert forall i :: 0 <= i < |rest| ==> rest[i] == s[i + 1];
      FilteredReadBack(rest);
      assert Nullish(ReadBack(s)[0]) <==> Nullish(s[0]);
      if !Nullish(s[0]) {
        assert ReadBack([s[0]] + Filtered(rest)) == ReadBack([s[0]]) + ReadBack(Filtered(rest));
      }
    }
  }

  /** Lists whose entries stringify alike, slot by slot, stringify alike. */
  lemma SameArrayDocument(a: seq<Value>, b: seq<Value>)
    requires |a| == |b|
    requires forall i :: 0 <= i < |a| ==> ToJson(a[i]) == ToJson(b[i])
    ensures ToJson(Arr(a)) == ToJson(Arr(b))
  {
    assert ToJson(Arr(a)).elems == ToJson(Arr(b)).elems;
  }

  /** The list `saveNotes` serialises: one slot per non-null note, in order. */
  function ProjectNotes(notes: seq<Value>): (r: seq<Value>)
    ensures |r| == |Filtered(notes)|
    ensures forall j :: 0 <= j < |r| ==> r[j] == ProjectNote(notes[NonNullPosition(notes, j)])
  {
    var valid := Filtered(notes);
    seq(|valid|, j requires 0 <= j < |valid| => ProjectNote(valid[j]))
  }

  /** The record `saveGroups` builds for one non-null group: always the classic shape,
      whatever the group's `type`. */
  function ProjectGroup(group: Value): (r: Value)
    ensures r.Obj? && r.fields.Keys == ClassicKeys
    ensures forall k :: k in ClassicKeys ==> Get(r, k) == Get(group, k)
  {
    Pick(group, ClassicKeys)
  }

  /** The list `saveGroups` would serialise: one record per non-null group, in order. */
  function ProjectGroups(groups: seq<Value>): (r: seq<Value>)
    ensures |r| == |Filtered(groups)|
    ensures forall j :: 0 <= j < |r| ==> r[j] == ProjectGroup(groups[NonNullPosition(groups, j)])
  {
    var valid := Filtered(groups);
    seq(|valid|, j requires 0 <= j < |valid| => ProjectGroup(valid[j]))
  }

  /** A group is projected like a classic note whatever its `type`: the two
      projections agree exactly on classic entries. */
  lemma GroupProjectionIsClassic(group: Value)
    ensures ProjectGroup(group) == ProjectNote(group) <==> Get(group, "type") == Str("classic")
  {
  }

  /** The note projection leaves an `undefined` slot exactly for the entries whose
      `type` is neither "classic" nor "list". */
  lemma UndefinedSlots(notes: seq<Value>, j: nat)
    requires j < |ProjectNotes(notes)|
    ensures var t := Get(notes[NonNullPosition(notes, j)], "type");
      ProjectNotes(notes)[j] == Undefined <==> t != Str("classic") && t != Str("list")
  {
  }
}
