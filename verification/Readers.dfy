/** The tape reader against the tree reader. */
module Readers {
  import opened Texts
  import opened GoData
  import opened Decoding
  import W = Wire

  /** Every value under a key no struct field names nests within the limit: what the
      tape reader passes over, and the tree reader never looks at. */
  ghost predicate SkipsFit(t: W.Tree, ty: Type, depth: nat)
    decreases t, ty
  {
    !(t.List? || t.Map?)
    || match ty
    case TPtr(e) => SkipsFit(t, e, depth)
    case TSlice(e) => t.List? ==> forall i :: 0 <= i < |t.items| ==> SkipsFit(t.items[i], e, depth + 1)
    case TArray(_, e) => t.List? ==> forall i :: 0 <= i < |t.items| ==> SkipsFit(t.items[i], e, depth + 1)
    case TMap(_, e) => t.Map? ==> ValuesSkipFit(t.entries, e, depth + 1)
    case TStruct(fs) => t.Map? ==> forall i :: 0 <= i < |t.entries| ==> EntrySkipFits(t.entries[i], fs, depth + 1)
    case _ => true
  }

  ghost predicate ValuesSkipFit(entries: seq<W.Entry>, e: Type, depth: nat)
    decreases entries
  {
    forall i :: 0 <= i < |entries| ==> SkipsFit(entries[i].value, e, depth)
  }

  lemma ValuesSkipFitTail(entries: seq<W.Entry>, e: Type, depth: nat)
    requires entries != []
    ensures ValuesSkipFit(entries, e, depth)
        <==> SkipsFit(entries[0].value, e, depth) && ValuesSkipFit(entries[1..], e, depth)
  {
    assert forall i :: 1 <= i < |entries| ==> entries[i] == entries[1..][i - 1];
  }

  ghost predicate EntrySkipFits(entry: W.Entry, fs: seq<Field>, depth: nat)
    decreases entry
  {
    var k := FieldNamed(fs, entry.key);
    if k == |fs| then W.Nests(entry.value, depth) else SkipsFit(entry.value, fs[k].ty, depth)
  }

  /** The tape reader answers what the tree reader does, unless a value it passes
      over nests too deep, when it refuses: on every tree with no key twice in one
      map, into every destination. */
  lemma {:induction false} TapeReadsAsTheTree(t: W.Tree, ty: Type, dst: Data, depth: nat)
    requires HasType(dst, ty) && DistinctFields(ty) && W.DistinctKeys(t)
    ensures Decode(TapeReader, t, ty, dst, depth)
         == if SkipsFit(t, ty, depth) then Decode(TreeReader, t, ty, dst, depth) else None
    decreases t, ty
  {
    hide Decode, SkipsFit, HasType, DistinctFields, W.DistinctKeys;
    if t.Absent? || depth > W.MAX_DEPTH {
      LeafReadsAlike(t, ty, dst, depth);
    } else {
      match ty
      case TPtr(e) => PtrReadsAlike(t, ty, dst, depth);
      case TSlice(e) => SequenceReadsAlike(t, ty, dst, depth);
      case TArray(n, e) => SequenceReadsAlike(t, ty, dst, depth);
      case TMap(kt, e) => MapReadsAlike(t, ty, dst, depth);
      case TStruct(fs) => RecordReadsAlike(t, ty, dst, depth);
      case _ => LeafReadsAlike(t, ty, dst, depth);
    }
  }

  lemma {:induction false} LeafReadsAlike(t: W.Tree, ty: Type, dst: Data, depth: nat)
    requires HasType(dst, ty)
    requires t.Absent? || depth > W.MAX_DEPTH || !(ty.TPtr? || ty.TSlice? || ty.TArray? || ty.TMap? || ty.TStruct?)
    ensures Decode(TapeReader, t, ty, dst, depth)
         == if SkipsFit(t, ty, depth) then Decode(TreeReader, t, ty, dst, depth) else None
  {
  }

  lemma {:induction false} RecordReadsAlike(t: W.Tree, ty: Type, dst: Data, depth: nat)
    requires ty.TStruct? && !t.Absent? && depth <= W.MAX_DEPTH
    requires HasType(dst, ty) && DistinctFields(ty) && W.DistinctKeys(t)
    ensures Decode(TapeReader, t, ty, dst, depth)
         == if SkipsFit(t, ty, depth) then Decode(TreeReader, t, ty, dst, depth) else None
    decreases t, ty, 0
  {
    if t.Map? {
      StructReadsAlike(t.entries, ty.fields, dst.fields, depth + 1);
    }
  }

  lemma {:induction false} SequenceReadsAlike(t: W.Tree, ty: Type, dst: Data, depth: nat)
    requires (ty.TSlice? || ty.TArray?) && !t.Absent? && depth <= W.MAX_DEPTH
    requires HasType(dst, ty) && DistinctFields(ty) && W.DistinctKeys(t)
    ensures Decode(TapeReader, t, ty, dst, depth)
         == if SkipsFit(t, ty, depth) then Decode(TreeReader, t, ty, dst, depth) else None
    decreases t, ty, 0
  {
    if t.List? && (if ty.TSlice? then ty.elem != UINT8 else |t.items| == ty.length) {
      var into := if ty.TSlice? then seq(|t.items|, _ => Zero(ty.elem)) else dst.items;
      ItemsReadAlike(t.items, ty.elem, into, depth + 1);
    }
  }

  lemma {:induction false} PtrReadsAlike(t: W.Tree, ty: Type, dst: Data, depth: nat)
    requires ty.TPtr? && !t.Absent? && depth <= W.MAX_DEPTH
    requires HasType(dst, ty) && DistinctFields(ty) && W.DistinctKeys(t)
    ensures Decode(TapeReader, t, ty, dst, depth)
         == if SkipsFit(t, ty, depth) then Decode(TreeReader, t, ty, dst, depth) else None
    decreases t, ty, 0
  {
    if !t.Null? {
      TapeReadsAsTheTree(t, ty.elem, if dst.Nil? then Zero(ty.elem) else dst.to, depth);
    }
  }

  lemma {:induction false} MapReadsAlike(t: W.Tree, ty: Type, dst: Data, depth: nat)
    requires ty.TMap? && !t.Absent? && depth <= W.MAX_DEPTH
    requires HasType(dst, ty) && DistinctFields(ty) && W.DistinctKeys(t)
    ensures Decode(TapeReader, t, ty, dst, depth)
         == if SkipsFit(t, ty, depth) then Decode(TreeReader, t, ty, dst, depth) else None
    decreases t, ty, 0
  {
    if t.Map? {
      EntriesReadAlike(t.entries, ty.key, ty.elem, if dst.Nil? then map[] else dst.dict, depth + 1);
    }
  }

  lemma {:induction false} ItemsReadAlike(items: seq<W.Tree>, e: Type, into: seq<Data>, depth: nat)
    requires |into| == |items| && AllHaveType(into, e) && DistinctFields(e)
    requires forall i :: 0 <= i < |items| ==> W.DistinctKeys(items[i])
    ensures DecodeItems(TapeReader, items, e, into, depth)
         == if forall i :: 0 <= i < |items| ==> SkipsFit(items[i], e, depth)
            then DecodeItems(TreeReader, items, e, into, depth) else None
    decreases items
  {
    hide Decode, HasType, DistinctFields, SkipsFit, W.DistinctKeys;
    if items != [] {
      TapeReadsAsTheTree(items[0], e, into[0], depth);
      ItemsReadAlike(items[1..], e, into[1..], depth);
      assert forall i :: 1 <= i < |items| ==> items[i] == items[1..][i - 1];
    }
  }

  lemma {:induction false} EntriesReadAlike(entries: seq<W.Entry>, kt: KeyType, e: Type, m: map<Key, Data>, depth: nat)
    requires DictHasType(m, kt, e) && DistinctFields(e)
    requires forall i :: 0 <= i < |entries| ==> W.DistinctKeys(entries[i].value)
    ensures DecodeDict(TapeReader, entries, kt, e, m, depth)
         == if ValuesSkipFit(entries, e, depth)
            then DecodeDict(TreeReader, entries, kt, e, m, depth) else None
    decreases entries
  {
    if entries == [] {
    } else {
      hide Decode, HasType, SkipsFit, ValuesSkipFit, DictHasType, ReadKey;
      ValuesSkipFitTail(entries, e, depth);
      var tape := Decode(TapeReader, entries[0].value, e, Zero(e), depth);
      var tree := Decode(TreeReader, entries[0].value, e, Zero(e), depth);
      TapeReadsAsTheTree(entries[0].value, e, Zero(e), depth);
      DictStep(TapeReader, entries, kt, e, m, depth, tape);
      DictStep(TreeReader, entries, kt, e, m, depth, tree);
      var k := ReadKey(entries[0].key, kt);
      if k.Some? && tree.Some? {
        EntriesReadAlike(entries[1..], kt, e, Put(m, kt, e, k.value, tree.value), depth);
      }
    }
  }

  lemma DictStep(reader: Reader, entries: seq<W.Entry>, kt: KeyType, e: Type, m: map<Key, Data>, depth: nat,
        v: Option<Data>)
    requires entries != [] && DictHasType(m, kt, e)
    requires v == Decode(reader, entries[0].value, e, Zero(e), depth)
    ensures var k := ReadKey(entries[0].key, kt);
      DecodeDict(reader, entries, kt, e, m, depth)
      == if k.None? || v.None? then None
         else DecodeDict(reader, entries[1..], kt, e, Put(m, kt, e, k.value, v.value), depth)
  {
  }

  // --- a struct: entries in wire order against fields in declaration order -----------

  ghost predicate KeysDiffer(entries: seq<W.Entry>) {
    forall i, j :: 0 <= i < j < |entries| ==> entries[i].key != entries[j].key
  }

  /** out is vs with each field read on its own, by reader. */
  ghost predicate ReadFieldwise(reader: Reader, entries: seq<W.Entry>, fs: seq<Field>, vs: seq<Data>, out: seq<Data>,
        depth: nat)
    requires FieldsHaveType(vs, fs)
  {
    |out| == |fs|
    && forall k :: 0 <= k < |fs| ==> DecodeField(reader, entries, fs[k], vs[k], depth) == Some(out[k])
  }

  /** The loop over the fields reads them one by one. */
  lemma {:induction false} FieldsReadFieldwise(entries: seq<W.Entry>, fs: seq<Field>, vs: seq<Data>, k: nat, depth: nat)
    requires FieldsHaveType(vs, fs) && k <= |fs|
    ensures match DecodeFields(entries, fs, vs, k, depth)
            case Some(out) =>
              out[..k] == vs[..k]
              && forall j :: k <= j < |fs| ==> DecodeField(TreeReader, entries, fs[j], vs[j], depth) == Some(out[j])
            case None => exists j :: k <= j < |fs| && DecodeField(TreeReader, entries, fs[j], vs[j], depth).None?
    decreases |fs| - k
  {
    if k < |fs| {
      var v := DecodeField(TreeReader, entries, fs[k], vs[k], depth);
      if v.Some? {
        var next := vs[k := v.value];
        FieldsReadFieldwise(entries, fs, next, k + 1, depth);
        var r := DecodeFields(entries, fs, next, k + 1, depth);
        assert forall j :: k < j < |fs| ==> next[j] == vs[j];
        if r.Some? {
          assert r.value[..k] == r.value[..k + 1][..k] == vs[..k];
          assert r.value[k] == r.value[..k + 1][k];
        }
      }
    }
  }

  lemma FindKeyInTail(entries: seq<W.Entry>, name: Text)
    requires entries != [] && entries[0].key != name
    ensures FindKey(entries, name) == 1 + FindKey(entries[1..], name)
  {
  }

  lemma FindKeyMisses(entries: seq<W.Entry>, name: Text)
    requires forall i :: 0 <= i < |entries| ==> entries[i].key != name
    ensures FindKey(entries, name) == |entries|
  {
  }

  /** So does the loop over the entries, no key coming twice. */
  lemma {:induction false} EntriesReadFieldwise(entries: seq<W.Entry>, fs: seq<Field>, vs: seq<Data>, depth: nat)
    requires FieldsHaveType(vs, fs) && DistinctNames(fs) && KeysDiffer(entries)
    ensures var r := DecodeEntries(entries, fs, vs, depth);
            && (r.Some? ==> ReadFieldwise(TapeReader, entries, fs, vs, r.value, depth))
            && (r.None? ==>
                  || (exists i :: 0 <= i < |entries| && UnknownPast(entries[i], fs, depth))
                  || (exists k :: 0 <= k < |fs| && DecodeField(TapeReader, entries, fs[k], vs[k], depth).None?))
            && (r.Some? ==> forall i :: 0 <= i < |entries| ==> !UnknownPast(entries[i], fs, depth))
    decreases entries
  {
    if entries == [] {
      return;
    }
    var head, tail := entries[0], entries[1..];
    var k := FieldNamed(fs, head.key);
    assert KeysDiffer(tail);
    assert forall i :: 0 <= i < |tail| ==> tail[i] == entries[i + 1];
    forall j | 0 <= j < |fs| && j != k
      ensures fs[j].name != head.key
      ensures FindKey(entries, fs[j].name) == 1 + FindKey(tail, fs[j].name)
    {
      FindKeyInTail(entries, fs[j].name);
    }
    if k == |fs| {
      if W.Nests(head.value, depth) {
        EntriesReadFieldwise(tail, fs, vs, depth);
        FieldwiseFromTail(entries, fs, vs, vs, k, depth);
      } else {
        assert UnknownPast(entries[0], fs, depth);
      }
    } else {
      assert FindKey(entries, fs[k].name) == 0;
      FindKeyMisses(tail, head.key);
      var v := Decode(TapeReader, head.value, fs[k].ty, vs[k], depth);
      if v.Some? {
        EntriesReadFieldwise(tail, fs, vs[k := v.value], depth);
        FieldwiseFromTail(entries, fs, vs, vs[k := v.value], k, depth);
      } else {
        assert DecodeField(TapeReader, entries, fs[k], vs[k], depth).None?;
      }
    }
  }

  ghost predicate UnknownPast(entry: W.Entry, fs: seq<Field>, depth: nat) {
    FieldNamed(fs, entry.key) == |fs| && !W.Nests(entry.value, depth)
  }

  lemma FieldwiseFromTail(entries: seq<W.Entry>, fs: seq<Field>, vs: seq<Data>, next: seq<Data>, k: nat, depth: nat)
    requires FieldsHaveType(vs, fs) && FieldsHaveType(next, fs) && entries != [] && k <= |fs|
    requires forall j :: 0 <= j < |fs| && j != k ==>
      next[j] == vs[j] && FindKey(entries, fs[j].name) == 1 + FindKey(entries[1..], fs[j].name)
    requires k < |fs| ==> FindKey(entries, fs[k].name) == 0 && FindKey(entries[1..], fs[k].name) == |entries| - 1
    requires k < |fs| ==> Decode(TapeReader, entries[0].value, fs[k].ty, vs[k], depth) == Some(next[k])
    ensures forall j :: 0 <= j < |fs| ==>
      DecodeField(TapeReader, entries, fs[j], vs[j], depth)
      == DecodeField(TapeReader, entries[1..], fs[j], next[j], depth)
  {
  }

  lemma {:induction false} StructReadsAlike(entries: seq<W.Entry>, fs: seq<Field>, vs: seq<Data>, depth: nat)
    requires FieldsHaveType(vs, fs) && DistinctNames(fs) && KeysDiffer(entries)
    requires forall i :: 0 <= i < |fs| ==> DistinctFields(fs[i].ty)
    requires forall i :: 0 <= i < |entries| ==> W.DistinctKeys(entries[i].value)
    ensures DecodeEntries(entries, fs, vs, depth)
         == if forall i :: 0 <= i < |entries| ==> EntrySkipFits(entries[i], fs, depth)
            then DecodeFields(entries, fs, vs, 0, depth) else None
    decreases entries, 0
  {
    hide Decode, DecodeEntries, DecodeFields, HasType, DistinctFields, SkipsFit, W.DistinctKeys, W.Nests, FindKey,
      FieldNamed;
    EntriesReadFieldwise(entries, fs, vs, depth);
    FieldsReadFieldwise(entries, fs, vs, 0, depth);
    FieldsMeetEntries(entries, fs);
    forall k | 0 <= k < |fs|
      ensures var i := FindKey(entries, fs[k].name);
        DecodeField(TapeReader, entries, fs[k], vs[k], depth)
        == if i == |entries| || SkipsFit(entries[i].value, fs[k].ty, depth)
           then DecodeField(TreeReader, entries, fs[k], vs[k], depth) else None
    {
      var i := FindKey(entries, fs[k].name);
      if i < |entries| {
        TapeReadsAsTheTree(entries[i].value, fs[k].ty, vs[k], depth);
      }
    }
    var tape, tree := DecodeEntries(entries, fs, vs, depth), DecodeFields(entries, fs, vs, 0, depth);
    if tape.Some? && tree.Some? {
      assert tape.value == tree.value;
    }
  }

  /** With no name and no key twice, a field's entry and an entry's field are each other's. */
  lemma {:induction false} FieldsMeetEntries(entries: seq<W.Entry>, fs: seq<Field>)
    requires DistinctNames(fs) && KeysDiffer(entries)
    ensures forall i :: 0 <= i < |entries| ==>
      var k := FieldNamed(fs, entries[i].key); k < |fs| ==> FindKey(entries, fs[k].name) == i
    ensures forall k :: 0 <= k < |fs| ==>
      var i := FindKey(entries, fs[k].name); i < |entries| ==> FieldNamed(fs, entries[i].key) == k
  {
  }
}
