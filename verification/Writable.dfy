/** Which Go data the encoder writes, and which it refuses. */
module Writable {
  import opened Texts
  import opened GoData
  import opened KeyOrder
  import opened Encoding
  import Numbers
  import W = Wire

  /** Every text written of v is UTF-8, every Number is one, and every part of it, v itself
      below depth others, is below fewer than MAX_DEPTH. */
  ghost predicate IsWritable(ty: Type, v: Data, depth: nat)
    requires HasType(v, ty)
    decreases v, 2
  {
    depth < W.MAX_DEPTH
    && match ty
       case TString => ValidUtf8(v.text)
       case TNumber => Numbers.IsNumber(v.text)
       case TPtr(e) => v.Ptr? ==> IsWritable(e, v.to, depth)
       case TAny => AnyIsWritable(v, depth)
       case TSlice(e) => v.Items? ==> forall i :: 0 <= i < |v.items| ==> IsWritable(e, v.items[i], depth + 1)
       case TArray(_, e) => forall i :: 0 <= i < |v.items| ==> IsWritable(e, v.items[i], depth + 1)
       case TMap(_, e) =>
         v.Dict? ==> forall k :: k in v.dict ==> ValidUtf8(KeyText(k)) && IsWritable(e, v.dict[k], depth + 1)
       case TStruct(fs) =>
         forall i :: 0 <= i < |fs| && !Omitted(fs[i], v.fields[i]) ==>
           ValidUtf8(fs[i].name) && IsWritable(fs[i].ty, v.fields[i], depth + 1)
       case _ => true
  }

  /** A nil interface has no limit, and the nils in a []any or a map[string]any none either. */
  ghost predicate AnyIsWritable(x: Data, depth: nat)
    requires HasType(x, TAny)
    decreases x, 1
  {
    x.Nil?
    || (if x.ty == TSlice(TAny) then
          assert HasType(x.data, TSlice(TAny));
          depth < W.MAX_DEPTH
          && (x.data.Items? ==> forall i :: 0 <= i < |x.data.items| ==> AnyIsWritable(x.data.items[i], depth + 1))
        else if x.ty == TMap(KeyString, TAny) then
          assert HasType(x.data, TMap(KeyString, TAny));
          depth < W.MAX_DEPTH
          && (x.data.Dict? ==> forall k :: k in x.data.dict ==>
                ValidUtf8(KeyText(k)) && AnyIsWritable(x.data.dict[k], depth + 1))
        else IsWritable(x.ty, x.data, depth))
  }

  /** One element, as the loop it is in writes it. */
  ghost predicate ElementIsWritable(e: Type, v: Data, depth: nat, fast: bool)
    requires HasType(v, e) && (fast ==> e == TAny)
  {
    if fast then AnyIsWritable(v, depth) else IsWritable(e, v, depth)
  }

  /** The encoder writes exactly what is writable. */
  lemma {:induction false} EncodesExactly(ty: Type, v: Data, depth: nat)
    requires HasType(v, ty)
    ensures Encode(ty, v, depth).Some? <==> IsWritable(ty, v, depth)
    decreases v, 2
  {
    match ty
    case TPtr(e) => if v.Ptr? { EncodesExactly(e, v.to, depth); }
    case TAny => EncodesAnyExactly(v, depth);
    case TSlice(e) => if v.Items? { ItemsExactly(v.items, e, depth + 1, false); }
    case TArray(_, e) => ItemsExactly(v.items, e, depth + 1, false);
    case TMap(kt, e) => if v.Dict? { DictExactly(v, kt, e, depth + 1, false); }
    case TStruct(fs) => FieldsExactly(v.fields, fs, 0, depth + 1);
    case _ =>
  }

  lemma {:induction false} EncodesAnyExactly(x: Data, depth: nat)
    requires HasType(x, TAny)
    ensures EncodeAny(x, depth).Some? <==> AnyIsWritable(x, depth)
    decreases x, 1
  {
    if x.Nil? {
    } else if x.ty == TSlice(TAny) {
      if x.data.Items? { ItemsExactly(x.data.items, TAny, depth + 1, true); }
    } else if x.ty == TMap(KeyString, TAny) {
      if x.data.Dict? { DictExactly(x.data, KeyString, TAny, depth + 1, true); }
    } else {
      EncodesExactly(x.ty, x.data, depth);
    }
  }

  lemma {:induction false} ItemsExactly(vs: seq<Data>, e: Type, depth: nat, fast: bool)
    requires AllHaveType(vs, e) && (fast ==> e == TAny)
    ensures EncodeItems(vs, e, depth, fast).Some?
      <==> forall i :: 0 <= i < |vs| ==> ElementIsWritable(e, vs[i], depth, fast)
    decreases vs
  {
    if vs != [] {
      hide HasType, Encode, EncodeAny, IsWritable, AnyIsWritable;
      if fast { EncodesAnyExactly(vs[0], depth); } else { EncodesExactly(e, vs[0], depth); }
      ItemsExactly(vs[1..], e, depth, fast);
      forall i | 0 < i < |vs| ensures vs[i] == vs[1..][i - 1] {}
    }
  }

  lemma {:induction false} DictExactly(v: Data, kt: KeyType, e: Type, depth: nat, fast: bool)
    requires HasType(v, TMap(kt, e)) && v.Dict? && (fast ==> e == TAny)
    ensures forall i :: 0 <= i < |Sorted(v.dict.Keys)| ==> Sorted(v.dict.Keys)[i] in v.dict
    ensures forall k :: k in v.dict ==> HasType(v.dict[k], e)
    ensures EncodeDict(v, kt, e, Sorted(v.dict.Keys), depth, fast).Some?
      <==> forall k :: k in v.dict ==> ValidUtf8(KeyText(k)) && ElementIsWritable(e, v.dict[k], depth, fast)
    decreases v, 0
  {
    SortedOnce(v.dict.Keys, Sorted(v.dict.Keys));
    KeysExactly(v, kt, e, Sorted(v.dict.Keys), depth, fast);
  }

  lemma {:induction false} KeysExactly(v: Data, kt: KeyType, e: Type, ks: seq<Key>, depth: nat, fast: bool)
    requires HasType(v, TMap(kt, e)) && v.Dict? && (fast ==> e == TAny)
    requires forall i :: 0 <= i < |ks| ==> ks[i] in v.dict
    ensures forall k :: k in ks ==> HasType(v.dict[k], e)
    ensures EncodeDict(v, kt, e, ks, depth, fast).Some?
      <==> forall k :: k in ks ==> ValidUtf8(KeyText(k)) && ElementIsWritable(e, v.dict[k], depth, fast)
    decreases v, 0, |ks|
  {
    assert forall k :: k in v.dict ==> HasType(v.dict[k], e) && v.dict[k] < v;
    if ks != [] {
      hide HasType, Encode, EncodeAny, IsWritable, AnyIsWritable, KeyText, ValidUtf8;
      if fast { EncodesAnyExactly(v.dict[ks[0]], depth); } else { EncodesExactly(e, v.dict[ks[0]], depth); }
      KeysExactly(v, kt, e, ks[1..], depth, fast);
      assert forall k :: k in ks <==> k == ks[0] || k in ks[1..];
    }
  }

  lemma {:induction false} FieldsExactly(vs: seq<Data>, fs: seq<Field>, k: nat, depth: nat)
    requires FieldsHaveType(vs, fs) && k <= |fs|
    ensures EncodeFields(vs, fs, k, depth).Some?
      <==> forall i :: k <= i < |fs| && !Omitted(fs[i], vs[i]) ==>
        ValidUtf8(fs[i].name) && IsWritable(fs[i].ty, vs[i], depth)
    decreases vs, |fs| - k
  {
    if k < |fs| {
      hide HasType, Encode, IsWritable, ValidUtf8, Omitted;
      EncodesExactly(fs[k].ty, vs[k], depth);
      FieldsExactly(vs, fs, k + 1, depth);
    }
  }
}
