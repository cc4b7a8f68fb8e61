/** Go data written as a value: the tree the encoder's walk describes. */
module Encoding {
  import opened Texts
  import opened GoData
  import opened KeyOrder
  import Numbers
  import W = Wire
  import D = Decoding

  function KeyText(k: Key): Text {
    match k
    case KText(text) => text
    case KNum(i) => FormatInt(i)
    case KFlag(b) => if b then D.TRUE else D.FALSE
  }

  /** reflect.Value.IsZero. */
  ghost predicate IsZero(v: Data, ty: Type)
    requires HasType(v, ty)
    decreases v
  {
    match ty
    case TBool => !v.flag
    case TInt(_) => v.num == 0
    case TString => v.text == []
    case TNumber => v.text == []
    case TArray(_, e) => forall i :: 0 <= i < |v.items| ==> IsZero(v.items[i], e)
    case TStruct(fs) => forall i :: 0 <= i < |fs| ==> IsZero(v.fields[i], fs[i].ty)
    case _ => v.Nil?
  }

  /** The fields that are not written: nil pointers, and under omitempty what is empty or zero. */
  ghost predicate Omitted(f: Field, v: Data)
    requires HasType(v, f.ty)
  {
    (f.ty.TPtr? && v.Nil?)
    || (f.omitEmpty
        && match f.ty
           case TSlice(e) => v.Nil? || (if e == UINT8 then v.body == [] else v.items == [])
           case TMap(_, _) => v.Nil? || v.dict == map[]
           case TArray(n, _) => n == 0
           case _ => IsZero(v, f.ty))
  }

  /** writeAny: an interface's value, below depth others. A nil one is written with no
      look at the depth, and so are the nils in what it writes without reflection. */
  ghost function EncodeAny(x: Data, depth: nat): Option<W.Tree>
    requires HasType(x, TAny)
    decreases x, 1
  {
    if x.Nil? then Some(W.Null)
    else if x.ty == TSlice(TAny) then
      if depth >= W.MAX_DEPTH then None else EncodeSlice(TAny, x.data, depth, true)
    else if x.ty == TMap(KeyString, TAny) then
      if depth >= W.MAX_DEPTH then None else EncodeMap(KeyString, TAny, x.data, depth, true)
    else Encode(x.ty, x.data, depth)
  }

  /** write: v of type ty, below depth others. */
  ghost function Encode(ty: Type, v: Data, depth: nat): Option<W.Tree>
    requires HasType(v, ty)
    decreases v, 2
  {
    if depth >= W.MAX_DEPTH then None
    else match ty
      case TBool => Some(W.Bool(v.flag))
      case TInt(_) => Some(W.Number(FormatInt(v.num)))
      case TString => if ValidUtf8(v.text) then Some(W.Str(v.text)) else None
      case TNumber => if Numbers.IsNumber(v.text) then Some(W.Number(v.text)) else None
      case TPtr(e) => if v.Nil? then Some(W.Null) else Encode(e, v.to, depth)
      case TAny => EncodeAny(v, depth)
      case TSlice(e) =>
        if e == UINT8 then Some(W.Bytes(if v.Nil? then [] else v.body))
        else EncodeSlice(e, v, depth, false)
      case TArray(_, e) => AsList(EncodeItems(v.items, e, depth + 1, false))
      case TMap(kt, e) => EncodeMap(kt, e, v, depth, false)
      case TStruct(fs) => AsMap(EncodeFields(v.fields, fs, 0, depth + 1))
  }

  /** A nil slice is written as an empty one, and a nil map too. */
  ghost function EncodeSlice(e: Type, v: Data, depth: nat, fast: bool): Option<W.Tree>
    requires HasType(v, TSlice(e)) && e != UINT8 && (fast ==> e == TAny)
    decreases v, 1
  {
    if v.Nil? then Some(W.List([])) else AsList(EncodeItems(v.items, e, depth + 1, fast))
  }

  ghost function EncodeMap(kt: KeyType, e: Type, v: Data, depth: nat, fast: bool): Option<W.Tree>
    requires HasType(v, TMap(kt, e)) && (fast ==> e == TAny)
    decreases v, 1
  {
    if v.Nil? then Some(W.Map([]))
    else
      SortedOnce(v.dict.Keys, Sorted(v.dict.Keys));
      AsMap(EncodeDict(v, kt, e, Sorted(v.dict.Keys), depth + 1, fast))
  }

  ghost function EncodeItems(vs: seq<Data>, e: Type, depth: nat, fast: bool): (r: Option<seq<W.Tree>>)
    requires AllHaveType(vs, e) && (fast ==> e == TAny)
    ensures r.Some? ==> |r.value| == |vs|
    decreases vs
  {
    if vs == [] then Some([])
    else match if fast then EncodeAny(vs[0], depth) else Encode(e, vs[0], depth)
      case None => None
      case Some(t) =>
        match EncodeItems(vs[1..], e, depth, fast)
        case None => None
        case Some(ts) => Some([t] + ts)
  }

  ghost function EncodeDict(v: Data, kt: KeyType, e: Type, ks: seq<Key>, depth: nat,
        fast: bool): (r: Option<seq<W.Entry>>)
    requires HasType(v, TMap(kt, e)) && v.Dict? && (fast ==> e == TAny)
    requires forall i :: 0 <= i < |ks| ==> ks[i] in v.dict
    ensures r.Some? ==> |r.value| == |ks|
    decreases v, 0, |ks|
  {
    if ks == [] then Some([])
    else if !ValidUtf8(KeyText(ks[0])) then None
    else match if fast then EncodeAny(v.dict[ks[0]], depth) else Encode(e, v.dict[ks[0]], depth)
      case None => None
      case Some(t) =>
        match EncodeDict(v, kt, e, ks[1..], depth, fast)
        case None => None
        case Some(es) => Some([W.Entry(KeyText(ks[0]), t)] + es)
  }

  ghost function EncodeFields(vs: seq<Data>, fs: seq<Field>, k: nat, depth: nat): (r: Option<seq<W.Entry>>)
    requires FieldsHaveType(vs, fs) && k <= |fs|
    ensures r.Some? ==> |r.value| == Written(vs, fs, k)
    decreases vs, |fs| - k
  {
    if k == |fs| then Some([])
    else if Omitted(fs[k], vs[k]) then EncodeFields(vs, fs, k + 1, depth)
    else if !ValidUtf8(fs[k].name) then None
    else match Encode(fs[k].ty, vs[k], depth)
      case None => None
      case Some(t) =>
        match EncodeFields(vs, fs, k + 1, depth)
        case None => None
        case Some(es) => Some([W.Entry(fs[k].name, t)] + es)
  }

  /** A list is written item by item: the first, then what the rest are written as. */
  lemma {:induction false} ItemsWrite(vs: seq<Data>, e: Type, depth: nat, fast: bool)
    requires AllHaveType(vs, e) && (fast ==> e == TAny) && vs != []
    requires EncodeItems(vs, e, depth, fast).Some?
    ensures var head := if fast then EncodeAny(vs[0], depth) else Encode(e, vs[0], depth);
      var tail := EncodeItems(vs[1..], e, depth, fast);
      head.Some? && tail.Some? && EncodeItems(vs, e, depth, fast) == Some([head.value] + tail.value)
  {
    hide Encode, EncodeAny, HasType;
  }

  /** A map is written entry by entry: the first, then what the other keys are written as. */
  lemma {:induction false} DictWrites(v: Data, kt: KeyType, e: Type, ks: seq<Key>, depth: nat, fast: bool)
    requires HasType(v, TMap(kt, e)) && v.Dict? && (fast ==> e == TAny) && ks != []
    requires forall i :: 0 <= i < |ks| ==> ks[i] in v.dict
    requires EncodeDict(v, kt, e, ks, depth, fast).Some?
    ensures var head := if fast then EncodeAny(v.dict[ks[0]], depth) else Encode(e, v.dict[ks[0]], depth);
      var tail := EncodeDict(v, kt, e, ks[1..], depth, fast);
      && ValidUtf8(KeyText(ks[0])) && head.Some? && tail.Some?
      && EncodeDict(v, kt, e, ks, depth, fast) == Some([W.Entry(KeyText(ks[0]), head.value)] + tail.value)
  {
    hide Encode, EncodeAny, HasType;
  }

  /** A field written comes first, and what the later fields are written as follows. */
  lemma {:induction false} FieldsWrite(vs: seq<Data>, fs: seq<Field>, k: nat, depth: nat)
    requires FieldsHaveType(vs, fs) && k < |fs| && EncodeFields(vs, fs, k, depth).Some?
    ensures EncodeFields(vs, fs, k + 1, depth).Some?
    ensures var tail := EncodeFields(vs, fs, k + 1, depth).value;
      if Omitted(fs[k], vs[k]) then EncodeFields(vs, fs, k, depth) == Some(tail)
      else
        && Encode(fs[k].ty, vs[k], depth).Some? && ValidUtf8(fs[k].name)
        && EncodeFields(vs, fs, k, depth) == Some([W.Entry(fs[k].name, Encode(fs[k].ty, vs[k], depth).value)] + tail)
  {
    hide Encode, HasType, Omitted;
  }

  /** How many fields from the k-th on are written. */
  ghost function Written(vs: seq<Data>, fs: seq<Field>, k: nat): nat
    requires FieldsHaveType(vs, fs) && k <= |fs|
    decreases |fs| - k
  {
    if k == |fs| then 0
    else (if Omitted(fs[k], vs[k]) then 0 else 1) + Written(vs, fs, k + 1)
  }

  function AsList(items: Option<seq<W.Tree>>): Option<W.Tree> {
    match items case None => None case Some(ts) => Some(W.List(ts))
  }

  function AsMap(entries: Option<seq<W.Entry>>): Option<W.Tree> {
    match entries case None => None case Some(es) => Some(W.Map(es))
  }
}
