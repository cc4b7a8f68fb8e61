/** What every tree the encoder describes keeps. */
module Encoded {
  import opened Texts
  import opened Bits
  import opened GoData
  import opened KeyOrder
  import opened Encoding
  import Numbers
  import W = Wire
  import D = Decoding
  import opened Events

  /** No length in v is past an int, as no Go value's is. */
  ghost predicate InMemory(v: Data) {
    match v
    case Chars(text) => |text| <= W.MAX_INT
    case Octets(body) => |body| <= W.MAX_INT
    case Items(vs) => |vs| <= W.MAX_INT && forall i :: 0 <= i < |vs| ==> InMemory(vs[i])
    case Dict(m) => |m| <= W.MAX_INT && forall k :: k in m ==> |KeyText(k)| <= W.MAX_INT && InMemory(m[k])
    case Ptr(to) => InMemory(to)
    case Boxed(ty, data) => NamesInMemory(ty) && InMemory(data)
    case Record(vs) => |vs| <= W.MAX_INT && forall i :: 0 <= i < |vs| ==> InMemory(vs[i])
    case _ => true
  }

  ghost predicate NamesInMemory(t: Type) {
    match t
    case TSlice(e) => NamesInMemory(e)
    case TArray(_, e) => NamesInMemory(e)
    case TMap(_, e) => NamesInMemory(e)
    case TPtr(e) => NamesInMemory(e)
    case TStruct(fs) =>
      |fs| <= W.MAX_INT && forall i :: 0 <= i < |fs| ==> |fs[i].name| <= W.MAX_INT && NamesInMemory(fs[i].ty)
    case _ => true
  }

  /** What an encoded tree at depth is: writable, no key repeated, no absent node,
      and within the readers' limit. */
  ghost predicate Sound(t: W.Tree, depth: nat) {
    W.WellFormed(t) && W.DistinctKeys(t) && NoAbsent(t) && W.Fits(t, depth)
  }

  lemma {:induction false} EncodedIsSound(ty: Type, v: Data, depth: nat)
    requires HasType(v, ty) && InMemory(v) && NamesInMemory(ty) && DistinctFields(ty)
    requires Encode(ty, v, depth).Some?
    ensures depth < W.MAX_DEPTH && Sound(Encode(ty, v, depth).value, depth)
    decreases v, 2
  {
    hide Sound;
    match ty
    case TPtr(e) => if v.Nil? { LeafIsSound(ty, v, depth); } else { EncodedIsSound(e, v.to, depth); }
    case TAny => AnyIsSound(v, depth);
    case TSlice(e) => if e == UINT8 { LeafIsSound(ty, v, depth); } else { SliceIsSound(e, v, depth, false); }
    case TArray(_, e) =>
      ItemsAreSound(v.items, e, depth + 1, false);
      SoundItemsMakeAList(EncodeItems(v.items, e, depth + 1, false).value, depth);
    case TMap(kt, e) => MapIsSound(kt, e, v, depth, false);
    case TStruct(fs) =>
      FieldsAreSound(v.fields, fs, 0, depth + 1);
      SoundEntriesMakeAMap(EncodeFields(v.fields, fs, 0, depth + 1).value, depth);
    case _ => LeafIsSound(ty, v, depth);
  }

  lemma {:induction false} LeafIsSound(ty: Type, v: Data, depth: nat)
    requires HasType(v, ty) && InMemory(v) && Encode(ty, v, depth).Some?
    requires ty.TBool? || ty.TInt? || ty.TString? || ty.TNumber? || ty == TSlice(UINT8) || (ty.TPtr? && v.Nil?)
    ensures depth < W.MAX_DEPTH && Sound(Encode(ty, v, depth).value, depth)
  {
    if ty.TInt? {
      Numbers.IntegersAreNumbers(v.num);
      IntegersAreShort(v.num, ty.w);
    }
  }

  lemma SoundItemsMakeAList(ts: seq<W.Tree>, depth: nat)
    requires |ts| <= W.MAX_INT && depth < W.MAX_DEPTH
    requires forall i :: 0 <= i < |ts| ==> Sound(ts[i], depth + 1)
    ensures Sound(W.List(ts), depth)
  {
  }

  lemma {:induction false} AnyIsSound(x: Data, depth: nat)
    requires HasType(x, TAny) && InMemory(x) && depth <= W.MAX_DEPTH
    requires EncodeAny(x, depth).Some?
    ensures Sound(EncodeAny(x, depth).value, depth)
    decreases x, 1
  {
    if !x.Nil? {
      if x.ty == TSlice(TAny) {
        SliceIsSound(TAny, x.data, depth, true);
      } else if x.ty == TMap(KeyString, TAny) {
        MapIsSound(KeyString, TAny, x.data, depth, true);
      } else {
        EncodedIsSound(x.ty, x.data, depth);
      }
    }
  }

  lemma {:induction false} SliceIsSound(e: Type, v: Data, depth: nat, fast: bool)
    requires HasType(v, TSlice(e)) && e != UINT8 && (fast ==> e == TAny) && depth < W.MAX_DEPTH
    requires InMemory(v) && NamesInMemory(e) && DistinctFields(e)
    requires EncodeSlice(e, v, depth, fast).Some?
    ensures Sound(EncodeSlice(e, v, depth, fast).value, depth)
    decreases v, 1
  {
    hide Sound;
    var ts := if v.Nil? then [] else EncodeItems(v.items, e, depth + 1, fast).value;
    if !v.Nil? { ItemsAreSound(v.items, e, depth + 1, fast); }
    SoundItemsMakeAList(ts, depth);
  }

  lemma {:induction false} MapIsSound(kt: KeyType, e: Type, v: Data, depth: nat, fast: bool)
    requires HasType(v, TMap(kt, e)) && (fast ==> e == TAny) && depth < W.MAX_DEPTH
    requires InMemory(v) && NamesInMemory(e) && DistinctFields(e)
    requires EncodeMap(kt, e, v, depth, fast).Some?
    ensures Sound(EncodeMap(kt, e, v, depth, fast).value, depth)
    decreases v, 1
  {
    hide Sound, AreEntriesOf, EncodeMap, EncodeDict, HasType, InMemory, NamesInMemory, DistinctFields;
    MapFacts(kt, e, v, depth, fast);
    if v.Dict? {
      var ks := Sorted(v.dict.Keys);
      DictIsSound(v, kt, e, ks, depth + 1, fast);
      SortedEntriesMakeAMap(v, kt, e, EncodeDict(v, kt, e, ks, depth + 1, fast).value, depth);
    }
  }

  lemma MapFacts(kt: KeyType, e: Type, v: Data, depth: nat, fast: bool)
    requires HasType(v, TMap(kt, e)) && (fast ==> e == TAny) && InMemory(v) && depth < W.MAX_DEPTH
    ensures !v.Dict? ==> EncodeMap(kt, e, v, depth, fast) == Some(W.Map([])) && Sound(W.Map([]), depth)
    ensures v.Dict? ==> |v.dict| <= W.MAX_INT
    ensures v.Dict? ==>
      var ks := Sorted(v.dict.Keys);
      && (forall i :: 0 <= i < |ks| ==> ks[i] in v.dict)
      && var es := EncodeDict(v, kt, e, ks, depth + 1, fast);
      && (EncodeMap(kt, e, v, depth, fast).Some? ==>
        es.Some? && EncodeMap(kt, e, v, depth, fast).value == W.Map(es.value))
  {
    if v.Dict? { SortedOnce(v.dict.Keys, Sorted(v.dict.Keys)); }
  }

  lemma KeyTextsDiffer(v: Data, kt: KeyType, e: Type)
    requires HasType(v, TMap(kt, e)) && v.Dict?
    ensures var ks := Sorted(v.dict.Keys); forall i, j :: 0 <= i < j < |ks| ==> KeyText(ks[i]) != KeyText(ks[j])
  {
    var ks := Sorted(v.dict.Keys);
    SortedOnce(v.dict.Keys, ks);
    forall i, j | 0 <= i < j < |ks| ensures KeyText(ks[i]) != KeyText(ks[j]) {
      KeyTextInjective(ks[i], ks[j], kt);
    }
  }

  lemma SortedEntriesMakeAMap(v: Data, kt: KeyType, e: Type, es: seq<W.Entry>, depth: nat)
    requires HasType(v, TMap(kt, e)) && v.Dict? && |v.dict| <= W.MAX_INT && depth < W.MAX_DEPTH
    requires AreEntriesOf(es, Sorted(v.dict.Keys), depth + 1)
    ensures Sound(W.Map(es), depth)
  {
    hide Sound, SoundEntry, KeyText, HasType;
    SortedOnce(v.dict.Keys, Sorted(v.dict.Keys));
    KeyTextsDiffer(v, kt, e);
    SoundEntriesMakeAMap(es, depth);
  }

  /** The entries are the keys', in order, and each is writable at depth. */
  ghost predicate AreEntriesOf(es: seq<W.Entry>, ks: seq<Key>, depth: nat) {
    |es| == |ks| && forall i :: 0 <= i < |es| ==> es[i].key == KeyText(ks[i]) && SoundEntry(es[i], depth)
  }

  lemma SoundEntriesMakeAMap(es: seq<W.Entry>, depth: nat)
    requires |es| <= W.MAX_INT && depth < W.MAX_DEPTH
    requires forall i :: 0 <= i < |es| ==> SoundEntry(es[i], depth + 1)
    requires forall i, j :: 0 <= i < j < |es| ==> es[i].key != es[j].key
    ensures Sound(W.Map(es), depth)
  {
  }

  lemma {:induction false} ItemsAreSound(vs: seq<Data>, e: Type, depth: nat, fast: bool)
    requires AllHaveType(vs, e) && (fast ==> e == TAny) && depth <= W.MAX_DEPTH
    requires NamesInMemory(e) && DistinctFields(e) && forall i :: 0 <= i < |vs| ==> InMemory(vs[i])
    requires EncodeItems(vs, e, depth, fast).Some?
    ensures var ts := EncodeItems(vs, e, depth, fast).value; forall i :: 0 <= i < |ts| ==> Sound(ts[i], depth)
    decreases vs
  {
    if vs != [] {
      if fast { AnyIsSound(vs[0], depth); } else { EncodedIsSound(e, vs[0], depth); }
      ItemsAreSound(vs[1..], e, depth, fast);
    }
  }

  ghost predicate SoundEntry(entry: W.Entry, depth: nat) {
    |entry.key| <= W.MAX_INT && ValidUtf8(entry.key) && Sound(entry.value, depth)
  }

  lemma {:induction false} DictIsSound(v: Data, kt: KeyType, e: Type, ks: seq<Key>, depth: nat, fast: bool)
    requires HasType(v, TMap(kt, e)) && v.Dict? && (fast ==> e == TAny) && depth <= W.MAX_DEPTH
    requires forall i :: 0 <= i < |ks| ==> ks[i] in v.dict
    requires InMemory(v) && NamesInMemory(e) && DistinctFields(e)
    requires EncodeDict(v, kt, e, ks, depth, fast).Some?
    ensures AreEntriesOf(EncodeDict(v, kt, e, ks, depth, fast).value, ks, depth)
    decreases v, 0, |ks|
  {
    hide HasType, InMemory, NamesInMemory, DistinctFields, Sound, KeyText, Encode, EncodeAny, EncodeDict, ValidUtf8;
    if ks != [] {
      MapHolds(v, kt, e, ks[0]);
      DictWrites(v, kt, e, ks, depth, fast);
      if fast { AnyIsSound(v.dict[ks[0]], depth); } else { EncodedIsSound(e, v.dict[ks[0]], depth); }
      DictIsSound(v, kt, e, ks[1..], depth, fast);
    }
  }

  lemma {:induction false} MapHolds(v: Data, kt: KeyType, e: Type, k: Key)
    requires HasType(v, TMap(kt, e)) && v.Dict? && InMemory(v) && k in v.dict
    ensures HasType(v.dict[k], e) && InMemory(v.dict[k]) && |KeyText(k)| <= W.MAX_INT && v.dict[k] < v
  {
  }

  lemma {:induction false} FieldsAreSound(vs: seq<Data>, fs: seq<Field>, k: nat, depth: nat)
    requires FieldsHaveType(vs, fs) && k <= |fs| && DistinctNames(fs) && depth <= W.MAX_DEPTH
    requires forall i :: 0 <= i < |fs| ==>
      |fs[i].name| <= W.MAX_INT && NamesInMemory(fs[i].ty) && DistinctFields(fs[i].ty)
    requires forall i :: 0 <= i < |vs| ==> InMemory(vs[i])
    requires EncodeFields(vs, fs, k, depth).Some?
    ensures var es := EncodeFields(vs, fs, k, depth).value;
      && |es| <= |fs| - k
      && (forall i :: 0 <= i < |es| ==> SoundEntry(es[i], depth))
      && (forall i :: 0 <= i < |es| ==> exists j :: k <= j < |fs| && es[i].key == fs[j].name)
      && (forall i, j :: 0 <= i < j < |es| ==> es[i].key != es[j].key)
    decreases vs, |fs| - k
  {
    if k < |fs| {
      if !Omitted(fs[k], vs[k]) {
        EncodedIsSound(fs[k].ty, vs[k], depth);
      }
      FieldsAreSound(vs, fs, k + 1, depth);
    }
  }

  // --- key texts -------------------------------------------------------------------

  lemma KeyTextInjective(a: Key, b: Key, kt: KeyType)
    requires KeyHasType(a, kt) && KeyHasType(b, kt) && a != b
    ensures KeyText(a) != KeyText(b)
  {
    if a.KNum? && KeyText(a) == KeyText(b) {
      FormatIntInjective(a.num, b.num);
    }
    assert |D.TRUE| != |D.FALSE|;
  }

  lemma {:induction false} FormatNatIsShort(n: nat, digits: nat)
    requires digits > 0 && n < Pow10(digits)
    ensures |FormatNat(n)| <= digits
  {
    if n >= 10 {
      FormatNatIsShort(n / 10, digits - 1);
    }
  }

  function Pow10(n: nat): nat {
    if n == 0 then 1 else 10 * Pow10(n - 1)
  }

  lemma IntegersAreShort(i: int, w: IntType)
    requires Lo(w) <= i <= Hi(w)
    ensures |FormatInt(i)| <= W.MAX_INT
  {
    Pow2Values();
    Pow2Grows(w.bits - 1, 63);
    Pow2Grows(w.bits, 64);
    assert Pow2(64) == 2 * Pow2(63);
    assert Pow10(10) == 1_00000_00000;
    assert Pow10(20) == 1_00000_00000_00000_00000;
    FormatNatIsShort(if i < 0 then -i else i, 20);
  }
}
