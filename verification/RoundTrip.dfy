/** Typed data written and read back. */
module RoundTrip {
  import opened Texts
  import opened GoData
  import opened KeyOrder
  import opened Encoding
  import opened Decoding
  import opened Readers
  import W = Wire

  /** A type no `any` is in, whose data reads back as the type it was. */
  ghost predicate Concrete(t: Type) {
    match t
    case TAny => false
    case TSlice(e) => Concrete(e)
    case TArray(_, e) => Concrete(e)
    case TMap(_, e) => Concrete(e)
    case TPtr(e) => Concrete(e)
    case TStruct(fs) => forall i :: 0 <= i < |fs| ==> Concrete(fs[i].ty)
    case _ => true
  }

  /** The same data, a nil slice or map being an empty one. */
  ghost predicate Same(t: Type, a: Data, b: Data)
    requires HasType(a, t) && HasType(b, t)
    decreases t, 0
  {
    match t
    case TPtr(e) => a.Ptr? == b.Ptr? && (a.Ptr? ==> Same(e, a.to, b.to))
    case TSlice(e) =>
      if e == UINT8 then Body(a) == Body(b) else AllSame(e, Elements(a), Elements(b))
    case TArray(_, e) => AllSame(e, a.items, b.items)
    case TMap(_, e) =>
      Pairs(a).Keys == Pairs(b).Keys && forall k :: k in Pairs(a) ==> Same(e, Pairs(a)[k], Pairs(b)[k])
    case TStruct(fs) => forall i :: 0 <= i < |fs| ==> Same(fs[i].ty, a.fields[i], b.fields[i])
    case _ => a == b
  }

  ghost predicate AllSame(e: Type, a: seq<Data>, b: seq<Data>)
    requires AllHaveType(a, e) && AllHaveType(b, e)
    decreases e, 1
  {
    |a| == |b| && forall i :: 0 <= i < |a| ==> Same(e, a[i], b[i])
  }

  function Body(v: Data): Text {
    if v.Octets? then v.body else []
  }

  function Elements(v: Data): seq<Data> {
    if v.Items? then v.items else []
  }

  function Pairs(v: Data): map<Key, Data> {
    if v.Dict? then v.dict else map[]
  }

  /** No pointer in v that is not nil points at one that is. */
  ghost predicate NoNilBehind(t: Type, v: Data)
    requires HasType(v, t)
    decreases t, 0
  {
    match t
    case TPtr(e) => v.Ptr? ==> !(e.TPtr? && v.to.Nil?) && NoNilBehind(e, v.to)
    case TSlice(e) => e != UINT8 ==> AllNoNil(e, Elements(v))
    case TArray(_, e) => AllNoNil(e, v.items)
    case TMap(_, e) => forall k :: k in Pairs(v) ==> NoNilBehind(e, Pairs(v)[k])
    case TStruct(fs) => forall i :: 0 <= i < |fs| ==> NoNilBehind(fs[i].ty, v.fields[i])
    case _ => true
  }

  ghost predicate AllNoNil(e: Type, vs: seq<Data>)
    requires AllHaveType(vs, e)
    decreases e, 1
  {
    forall i :: 0 <= i < |vs| ==> NoNilBehind(e, vs[i])
  }

  /** v written, and read back into a new variable. */
  ghost function Reread(t: Type, v: Data, depth: nat): (r: Option<Data>)
    requires HasType(v, t)
    ensures r.Some? ==> HasType(r.value, t)
  {
    match Encode(t, v, depth)
    case None => None
    case Some(tree) => Decode(TreeReader, tree, t, Zero(t), depth)
  }

  /** Whatever the encoder writes of a concrete type reads back; and it is the same
      data exactly when no pointer to a nil pointer was in it, which null cannot say. */
  lemma {:induction false} WrittenReadsBack(t: Type, v: Data, depth: nat)
    requires HasType(v, t) && Concrete(t) && DistinctFields(t)
    requires Encode(t, v, depth).Some?
    ensures Reread(t, v, depth).Some?
    ensures Same(t, v, Reread(t, v, depth).value) <==> NoNilBehind(t, v)
    decreases t, 0
  {
    match t
    case TInt(w) => FormatIntReads(v.num, Lo(w), Hi(w));
    case TPtr(e) => PtrReadsBack(e, v, depth);
    case TSlice(e) => if e != UINT8 { SliceReadsBack(e, v, depth); }
    case TArray(n, e) => ArrayReadsBack(t, v, depth);
    case TMap(kt, e) => MapReadsBack(kt, e, v, depth);
    case TStruct(fs) => StructReadsBack(fs, v, depth);
    case _ =>
  }

  // --- pointers --------------------------------------------------------------------

  /** null is written of a nil pointer alone, behind any number of others. */
  lemma {:induction false} NullIsNilPointer(t: Type, v: Data, depth: nat)
    requires HasType(v, t) && Concrete(t) && Encode(t, v, depth) == Some(W.Null)
    ensures t.TPtr? && (v.Nil? || !NoNilBehind(t, v))
    decreases t
  {
    if t.TPtr? && !v.Nil? {
      NullIsNilPointer(t.elem, v.to, depth);
    }
  }

  lemma {:induction false} PtrReadsBack(e: Type, v: Data, depth: nat)
    requires HasType(v, TPtr(e)) && Concrete(e) && DistinctFields(e)
    requires Encode(TPtr(e), v, depth).Some?
    ensures Reread(TPtr(e), v, depth).Some?
    ensures Same(TPtr(e), v, Reread(TPtr(e), v, depth).value) <==> NoNilBehind(TPtr(e), v)
    decreases e, 2
  {
    var tree := Encode(TPtr(e), v, depth).value;
    assert depth < W.MAX_DEPTH && !tree.Absent? by { NotAbsent(TPtr(e), v, depth); }
    assert Reread(TPtr(e), v, depth) == DecodePtr(TreeReader, tree, e, Nil, depth);
    if v.Ptr? {
      if tree.Null? {
        NullIsNilPointer(e, v.to, depth);
      } else {
        WrittenReadsBack(e, v.to, depth);
      }
    }
  }

  lemma {:induction false} NotAbsent(t: Type, v: Data, depth: nat)
    requires HasType(v, t) && Encode(t, v, depth).Some? && Concrete(t)
    ensures depth < W.MAX_DEPTH && !Encode(t, v, depth).value.Absent?
    decreases v, 1
  {
    if t.TPtr? && !v.Nil? { NotAbsent(t.elem, v.to, depth); }
  }

  // --- lists -----------------------------------------------------------------------

  lemma {:induction false} ItemsReadBack(e: Type, vs: seq<Data>, into: seq<Data>, depth: nat)
    requires AllHaveType(vs, e) && Concrete(e) && DistinctFields(e)
    requires |into| == |vs| && AllHaveType(into, e) && forall i :: 0 <= i < |into| ==> into[i] == Zero(e)
    requires EncodeItems(vs, e, depth, false).Some?
    ensures var r := DecodeItems(TreeReader, EncodeItems(vs, e, depth, false).value, e, into, depth);
      r.Some? && (AllSame(e, vs, r.value) <==> AllNoNil(e, vs))
    decreases e, 1, |vs|
  {
    hide HasType, Concrete, DistinctFields, Same, NoNilBehind, Encode, EncodeItems, Decode, DecodeItems;
    if vs == [] {
      NoItemsRead(e, into, depth);
    } else {
      ItemsWrite(vs, e, depth, false);
      var ts := EncodeItems(vs, e, depth, false).value;
      assert ts[1..] == EncodeItems(vs[1..], e, depth, false).value;
      WrittenReadsBack(e, vs[0], depth);
      ItemsReadBack(e, vs[1..], into[1..], depth);
      ItemsDecode(ts, e, into, depth);
      SameCons(e, vs, Reread(e, vs[0], depth).value, DecodeItems(TreeReader, ts[1..], e, into[1..], depth).value);
      NoNilCons(e, vs);
    }
  }

  lemma NoItemsRead(e: Type, into: seq<Data>, depth: nat)
    requires into == []
    ensures DecodeItems(TreeReader, [], e, into, depth) == Some([])
  {
  }

  lemma ItemsDecode(ts: seq<W.Tree>, e: Type, into: seq<Data>, depth: nat)
    requires ts != [] && |into| == |ts| && AllHaveType(into, e)
    requires Decode(TreeReader, ts[0], e, into[0], depth).Some?
    requires DecodeItems(TreeReader, ts[1..], e, into[1..], depth).Some?
    ensures DecodeItems(TreeReader, ts, e, into, depth)
         == Some([Decode(TreeReader, ts[0], e, into[0], depth).value]
                 + DecodeItems(TreeReader, ts[1..], e, into[1..], depth).value)
  {
  }

  lemma SameCons(e: Type, vs: seq<Data>, head: Data, tail: seq<Data>)
    requires vs != [] && AllHaveType(vs, e) && HasType(head, e) && AllHaveType(tail, e)
    ensures AllHaveType([head] + tail, e)
    ensures AllSame(e, vs, [head] + tail) <==> Same(e, vs[0], head) && AllSame(e, vs[1..], tail)
  {
    hide Same, NoNilBehind, HasType;
    var all := [head] + tail;
    assert forall i :: 0 <= i < |tail| ==> all[i + 1] == tail[i];
    assert forall i :: 0 <= i < |vs| - 1 ==> vs[i + 1] == vs[1..][i];
    if AllSame(e, vs[1..], tail) && Same(e, vs[0], head) {
      forall i | 0 <= i < |vs| ensures Same(e, vs[i], all[i]) {
        if i > 0 { assert Same(e, vs[1..][i - 1], tail[i - 1]); }
      }
    }
    if AllSame(e, vs, all) {
      assert Same(e, vs[0], all[0]);
      forall i | 0 <= i < |tail| ensures Same(e, vs[1..][i], tail[i]) {
        assert Same(e, vs[i + 1], all[i + 1]);
      }
    }
  }

  lemma NoNilCons(e: Type, vs: seq<Data>)
    requires vs != [] && AllHaveType(vs, e)
    ensures AllNoNil(e, vs) <==> NoNilBehind(e, vs[0]) && AllNoNil(e, vs[1..])
  {
    hide NoNilBehind, HasType;
    if AllNoNil(e, vs) {
      forall i | 0 <= i < |vs[1..]| ensures NoNilBehind(e, vs[1..][i]) {
        assert NoNilBehind(e, vs[i + 1]);
      }
    }
    if NoNilBehind(e, vs[0]) && AllNoNil(e, vs[1..]) {
      forall i | 0 <= i < |vs| ensures NoNilBehind(e, vs[i]) {
        if i > 0 { assert NoNilBehind(e, vs[1..][i - 1]); }
      }
    }
  }

  lemma {:induction false} SliceReadsBack(e: Type, v: Data, depth: nat)
    requires HasType(v, TSlice(e)) && e != UINT8 && Concrete(e) && DistinctFields(e)
    requires Encode(TSlice(e), v, depth).Some?
    ensures Reread(TSlice(e), v, depth).Some?
    ensures Same(TSlice(e), v, Reread(TSlice(e), v, depth).value) <==> NoNilBehind(TSlice(e), v)
    decreases e, 2
  {
    var tree := Encode(TSlice(e), v, depth).value;
    assert Reread(TSlice(e), v, depth) == DecodeSlice(TreeReader, tree, e, depth);
    assert Encode(TSlice(e), v, depth) == EncodeSlice(e, v, depth, false) && depth < W.MAX_DEPTH;
    var vs := Elements(v);
    assert tree == W.List(EncodeItems(vs, e, depth + 1, false).value);
    ItemsReadBack(e, vs, seq(|vs|, _ => Zero(e)), depth + 1);
  }

  lemma {:induction false} ArrayReadsBack(t: Type, v: Data, depth: nat)
    requires t.TArray? && HasType(v, t) && Concrete(t.elem) && DistinctFields(t.elem)
    requires Encode(t, v, depth).Some?
    ensures Reread(t, v, depth).Some?
    ensures Same(t, v, Reread(t, v, depth).value) <==> NoNilBehind(t, v)
    decreases t.elem, 2
  {
    ItemsReadBack(t.elem, v.items, Zero(t).items, depth + 1);
  }

  // --- maps ------------------------------------------------------------------------

  lemma KeyReadsBack(k: Key, kt: KeyType)
    requires KeyHasType(k, kt)
    ensures ReadKey(KeyText(k), kt) == Some(k)
  {
    if k.KNum? { FormatIntReads(k.num, Lo(kt.w), Hi(kt.w)); }
    assert |TRUE| != |FALSE|;
  }

  /** Under each of ks, m holds what v does, but for what null cannot say. */
  ghost predicate Matches(e: Type, v: Data, m: map<Key, Data>, ks: seq<Key>)
    requires v.Dict?
  {
    forall i :: 0 <= i < |ks| ==>
      var k := ks[i];
      && k in v.dict && k in m && HasType(v.dict[k], e) && HasType(m[k], e)
      && (Same(e, v.dict[k], m[k]) <==> NoNilBehind(e, v.dict[k]))
  }

  lemma {:induction false} DictReadsBack(kt: KeyType, e: Type, v: Data, ks: seq<Key>, m: map<Key, Data>, depth: nat)
    requires HasType(v, TMap(kt, e)) && v.Dict? && Concrete(e) && DistinctFields(e)
    requires (forall i :: 0 <= i < |ks| ==> ks[i] in v.dict) && forall i, j :: 0 <= i < j < |ks| ==> ks[i] != ks[j]
    requires DictHasType(m, kt, e) && EncodeDict(v, kt, e, ks, depth, false).Some?
    ensures var r := DecodeDict(TreeReader, EncodeDict(v, kt, e, ks, depth, false).value, kt, e, m, depth);
      && r.Some? && Matches(e, v, r.value, ks)
      && (forall k :: k in r.value <==> k in m || k in ks)
      && (forall k :: k in m && k !in ks ==> r.value[k] == m[k])
    decreases e, 1, |ks|
  {
    hide HasType, DictHasType, Concrete, DistinctFields, Same, NoNilBehind, Encode, EncodeDict, Decode, DecodeDict,
      ReadKey, KeyText;
    var es := EncodeDict(v, kt, e, ks, depth, false).value;
    if ks == [] {
      NoEntriesRead(kt, e, m, depth);
    } else {
      var k := ks[0];
      EntryHasType(v, kt, e, k);
      DictWrites(v, kt, e, ks, depth, false);
      KeyReadsBack(k, kt);
      WrittenReadsBack(e, v.dict[k], depth);
      var w := Reread(e, v.dict[k], depth).value;
      assert es[1..] == EncodeDict(v, kt, e, ks[1..], depth, false).value;
      var put := Put(m, kt, e, k, w);
      DictReadsBack(kt, e, v, ks[1..], put, depth);
      var out := DecodeDict(TreeReader, es[1..], kt, e, put, depth).value;
      Readers.DictStep(TreeReader, es, kt, e, m, depth, Some(w));
      assert k !in ks[1..] && out[k] == w;
      MatchesCons(e, v, out, ks);
    }
  }

  lemma EntryHasType(v: Data, kt: KeyType, e: Type, k: Key)
    requires HasType(v, TMap(kt, e)) && v.Dict? && k in v.dict
    ensures HasType(v.dict[k], e) && KeyHasType(k, kt)
  {
  }

  lemma NoEntriesRead(kt: KeyType, e: Type, m: map<Key, Data>, depth: nat)
    requires DictHasType(m, kt, e)
    ensures DecodeDict(TreeReader, [], kt, e, m, depth) == Some(m)
  {
  }

  lemma MatchesCons(e: Type, v: Data, m: map<Key, Data>, ks: seq<Key>)
    requires v.Dict? && ks != [] && Matches(e, v, m, ks[1..]) && Matches(e, v, m, [ks[0]])
    ensures Matches(e, v, m, ks)
  {
    forall i | 0 <= i < |ks|
      ensures var k := ks[i];
        && k in v.dict && k in m && HasType(v.dict[k], e) && HasType(m[k], e)
        && (Same(e, v.dict[k], m[k]) <==> NoNilBehind(e, v.dict[k]))
    {
      if i > 0 { assert ks[i] == ks[1..][i - 1]; } else { assert ks[0] == [ks[0]][0]; }
    }
  }

  lemma {:induction false} MapReadsBack(kt: KeyType, e: Type, v: Data, depth: nat)
    requires HasType(v, TMap(kt, e)) && Concrete(e) && DistinctFields(e)
    requires Encode(TMap(kt, e), v, depth).Some?
    ensures Reread(TMap(kt, e), v, depth).Some?
    ensures Same(TMap(kt, e), v, Reread(TMap(kt, e), v, depth).value) <==> NoNilBehind(TMap(kt, e), v)
    decreases e, 2
  {
    var tree := Encode(TMap(kt, e), v, depth).value;
    assert Reread(TMap(kt, e), v, depth) == DecodeMap(TreeReader, tree, kt, e, Nil, depth);
    assert Encode(TMap(kt, e), v, depth) == EncodeMap(kt, e, v, depth, false) && depth < W.MAX_DEPTH;
    if v.Dict? {
      var ks := Sorted(v.dict.Keys);
      SortedOnce(v.dict.Keys, ks);
      DictReadsBack(kt, e, v, ks, map[], depth + 1);
      var m := DecodeDict(TreeReader, tree.entries, kt, e, map[], depth + 1).value;
      assert Reread(TMap(kt, e), v, depth) == Some(Dict(m));
      MatchingIsSame(kt, e, v, m, ks);
    } else {
      assert tree == W.Map([]);
      assert DecodeDict(TreeReader, [], kt, e, map[], depth + 1) == Some(map[]);
      assert Reread(TMap(kt, e), v, depth) == Some(Dict(map[]));
    }
  }

  lemma MatchingIsSame(kt: KeyType, e: Type, v: Data, m: map<Key, Data>, ks: seq<Key>)
    requires HasType(v, TMap(kt, e)) && v.Dict? && HasType(Dict(m), TMap(kt, e))
    requires SortsTo(v.dict.Keys, ks) && Matches(e, v, m, ks) && forall k :: k in m <==> k in ks
    ensures Same(TMap(kt, e), v, Dict(m)) <==> NoNilBehind(TMap(kt, e), v)
  {
    assert m.Keys == v.dict.Keys;
    forall k | k in v.dict
      ensures HasType(v.dict[k], e) && HasType(m[k], e)
      ensures Same(e, v.dict[k], m[k]) <==> NoNilBehind(e, v.dict[k])
    {
      assert k in ks;
      var i :| 0 <= i < |ks| && ks[i] == k;
    }
  }

  // --- structs ---------------------------------------------------------------------

  /** A zero value is what a new variable holds. */
  lemma {:induction false} ZeroIsNew(v: Data, t: Type)
    requires HasType(v, t) && IsZero(v, t)
    ensures v == Zero(t)
    decreases t
  {
    match t
    case TArray(n, e) =>
      forall i | 0 <= i < n ensures v.items[i] == Zero(e) {
        ZeroIsNew(v.items[i], e);
      }
      assert v.items == Zero(t).items;
    case TStruct(fs) =>
      forall i | 0 <= i < |fs| ensures v.fields[i] == Zero(fs[i].ty) {
        ZeroIsNew(v.fields[i], fs[i].ty);
      }
      assert v.fields == Zero(t).fields;
    case _ =>
  }

  lemma {:induction false} NewIsItself(t: Type)
    ensures Same(t, Zero(t), Zero(t)) && NoNilBehind(t, Zero(t))
    decreases t
  {
    match t
    case TArray(n, e) => NewIsItself(e);
    case TStruct(fs) =>
      forall i | 0 <= i < |fs|
        ensures Same(fs[i].ty, Zero(fs[i].ty), Zero(fs[i].ty)) && NoNilBehind(fs[i].ty, Zero(fs[i].ty))
      {
        NewIsItself(fs[i].ty);
      }
    case _ =>
  }

  /** What is left out is what a new variable holds anyway. */
  lemma OmittedIsNew(f: Field, v: Data)
    requires HasType(v, f.ty) && Omitted(f, v) && Concrete(f.ty)
    ensures Same(f.ty, v, Zero(f.ty)) && NoNilBehind(f.ty, v)
  {
    if !(f.ty.TSlice? || f.ty.TMap? || f.ty.TArray?) {
      if !f.ty.TPtr? { ZeroIsNew(v, f.ty); }
      NewIsItself(f.ty);
    }
  }

  /** The entry of a field that is written is found under its name, and there is none
      of one left out. */
  lemma {:induction false} FieldIsFound(vs: seq<Data>, fs: seq<Field>, k: nat, j: nat, depth: nat)
    requires FieldsHaveType(vs, fs) && DistinctNames(fs) && k <= |fs| && j < |fs|
    requires EncodeFields(vs, fs, k, depth).Some?
    ensures var es := EncodeFields(vs, fs, k, depth).value;
      var i := FindKey(es, fs[j].name);
      if j < k || Omitted(fs[j], vs[j]) then i == |es|
      else i < |es| && Some(es[i].value) == Encode(fs[j].ty, vs[j], depth)
    decreases |fs| - k
  {
    if k < |fs| {
      hide Encode, HasType, Omitted, FindKey;
      FieldIsFound(vs, fs, k + 1, j, depth);
      var rest := EncodeFields(vs, fs, k + 1, depth).value;
      if !Omitted(fs[k], vs[k]) {
        var head := W.Entry(fs[k].name, Encode(fs[k].ty, vs[k], depth).value);
        assert EncodeFields(vs, fs, k, depth) == Some([head] + rest);
        FindKeyCons(head, rest, fs[j].name);
        assert j != k ==> fs[j].name != fs[k].name;
      } else {
        assert EncodeFields(vs, fs, k, depth) == Some(rest);
      }
    } else {
      FindKeyMisses([], fs[j].name);
    }
  }

  lemma {:induction false} ZeroIsZero(t: Type)
    ensures IsZero(Zero(t), t)
    decreases t
  {
    match t
    case TArray(n, e) => ZeroIsZero(e);
    case TStruct(fs) => forall i | 0 <= i < |fs| ensures IsZero(Zero(fs[i].ty), fs[i].ty) { ZeroIsZero(fs[i].ty); }
    case _ =>
  }

  /** A field is among the written keys unless it is a nil pointer or, under omitempty, holds
      nothing where its type has a length and else what a new variable holds. */
  lemma {:induction false} WrittenUnless(vs: seq<Data>, fs: seq<Field>, j: nat, depth: nat)
    requires FieldsHaveType(vs, fs) && DistinctNames(fs) && j < |fs| && EncodeFields(vs, fs, 0, depth).Some?
    ensures var es, ty, v := EncodeFields(vs, fs, 0, depth).value, fs[j].ty, vs[j];
      (forall i :: 0 <= i < |es| ==> es[i].key != fs[j].name)
      <==>
      || (ty.TPtr? && v.Nil?)
      || (fs[j].omitEmpty
          && match v
             case Items(items) => items == []
             case Octets(body) => body == []
             case Dict(m) => m == map[]
             case _ => v == Zero(ty))
  {
    FieldIsFound(vs, fs, 0, j, depth);
    if fs[j].ty.TArray? || fs[j].ty.TStruct? || IsZero(vs[j], fs[j].ty) || vs[j] == Zero(fs[j].ty) {
      ZeroIsZero(fs[j].ty);
      if IsZero(vs[j], fs[j].ty) { ZeroIsNew(vs[j], fs[j].ty); }
    }
  }

  lemma FindKeyCons(head: W.Entry, tail: seq<W.Entry>, name: Text)
    ensures FindKey([head] + tail, name) == if head.key == name then 0 else 1 + FindKey(tail, name)
  {
    assert ([head] + tail)[1..] == tail;
  }

  lemma {:induction false} StructReadsBack(fs: seq<Field>, v: Data, depth: nat)
    requires HasType(v, TStruct(fs)) && Concrete(TStruct(fs)) && DistinctFields(TStruct(fs))
    requires Encode(TStruct(fs), v, depth).Some?
    ensures Reread(TStruct(fs), v, depth).Some?
    ensures Same(TStruct(fs), v, Reread(TStruct(fs), v, depth).value) <==> NoNilBehind(TStruct(fs), v)
    decreases fs
  {
    var tree := Encode(TStruct(fs), v, depth).value;
    var news := Zero(TStruct(fs)).fields;
    assert Reread(TStruct(fs), v, depth) == DecodeStruct(TreeReader, tree, fs, news, depth);
    FieldsReadFieldwise(tree.entries, fs, news, 0, depth + 1);
    forall k | 0 <= k < |fs|
      ensures var r := DecodeField(TreeReader, tree.entries, fs[k], news[k], depth + 1);
        r.Some? && (Same(fs[k].ty, v.fields[k], r.value) <==> NoNilBehind(fs[k].ty, v.fields[k]))
    {
      FieldIsFound(v.fields, fs, 0, k, depth + 1);
      if Omitted(fs[k], v.fields[k]) {
        OmittedIsNew(fs[k], v.fields[k]);
      } else {
        WrittenReadsBack(fs[k].ty, v.fields[k], depth + 1);
      }
    }
  }

  /** A pointer to a nil pointer comes back a nil pointer. */
  lemma NilBehindIsLost()
    ensures var t, v := TPtr(TPtr(TBool)), Ptr(Nil);
      HasType(v, t) && Encode(t, v, 0) == Some(W.Null) && Reread(t, v, 0) == Some(Nil) && !Same(t, v, Nil)
  {
    var t, v := TPtr(TPtr(TBool)), Ptr(Nil);
    assert Encode(TPtr(TBool), Nil, 0) == Some(W.Null);
    assert Encode(t, v, 0) == Some(W.Null);
  }
}
