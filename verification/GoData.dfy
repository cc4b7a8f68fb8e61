/** The Go types the codec reads and writes through reflection, and the data they hold. */
module GoData {
  import opened Texts
  import opened Bits

  type Width = w: nat | w in {8, 16, 32, 64} witness 8

  datatype IntType = Signed(bits: Width) | Unsigned(bits: Width)

  function Lo(w: IntType): int {
    var half: int := if w.Signed? then Pow2(w.bits - 1) else 0;
    -half
  }

  function Hi(w: IntType): int {
    if w.Signed? then Pow2(w.bits - 1) - 1 else Pow2(w.bits) - 1
  }

  datatype KeyType = KeyString | KeyInt(w: IntType) | KeyBool

  datatype Type =
    | TBool
    | TInt(w: IntType)
    | TString
    | TNumber
    | TSlice(elem: Type)
    | TArray(length: nat, elem: Type)
    | TMap(key: KeyType, elem: Type)
    | TPtr(elem: Type)
    | TAny
    | TStruct(fields: seq<Field>)

  /** One of the fields fieldsOf lists: the key it is stored under and its type. */
  datatype Field = Field(name: Text, ty: Type, omitEmpty: bool)

  const UINT8: Type := TInt(Unsigned(8))

  datatype Key = KText(text: Text) | KNum(num: int) | KFlag(flag: bool)

  datatype Data =
    | Nil
    | Flag(flag: bool)
    | Int(num: int)
    | Chars(text: Text)
    | Octets(body: Text)
    | Items(items: seq<Data>)
    | Dict(dict: map<Key, Data>)
    | Ptr(to: Data)
    | Boxed(ty: Type, data: Data)
    | Record(fields: seq<Data>)

  /** fieldsOf keeps one field to a name, in every struct t mentions. */
  ghost predicate DistinctFields(t: Type) {
    match t
    case TSlice(e) => DistinctFields(e)
    case TArray(_, e) => DistinctFields(e)
    case TMap(_, e) => DistinctFields(e)
    case TPtr(e) => DistinctFields(e)
    case TStruct(fs) =>
      DistinctNames(fs) && forall i :: 0 <= i < |fs| ==> DistinctFields(fs[i].ty)
    case _ => true
  }

  ghost predicate DistinctNames(fs: seq<Field>) {
    forall i, j :: 0 <= i < j < |fs| ==> fs[i].name != fs[j].name
  }

  predicate KeyHasType(k: Key, t: KeyType) {
    match t
    case KeyString => k.KText?
    case KeyInt(w) => k.KNum? && Lo(w) <= k.num <= Hi(w)
    case KeyBool => k.KFlag?
  }

  /** v is data a Go variable of type t can hold. */
  ghost predicate HasType(v: Data, t: Type)
    decreases v
  {
    match t
    case TBool => v.Flag?
    case TInt(w) => v.Int? && Lo(w) <= v.num <= Hi(w)
    case TString => v.Chars?
    case TNumber => v.Chars?
    case TSlice(e) =>
      v.Nil?
      || (if e == UINT8 then v.Octets? else v.Items? && forall i :: 0 <= i < |v.items| ==> HasType(v.items[i], e))
    case TArray(n, e) => v.Items? && |v.items| == n && forall i :: 0 <= i < |v.items| ==> HasType(v.items[i], e)
    case TMap(kt, e) =>
      v.Nil? || (v.Dict? && forall k :: k in v.dict ==> KeyHasType(k, kt) && HasType(v.dict[k], e))
    case TPtr(e) => v.Nil? || (v.Ptr? && HasType(v.to, e))
    case TAny => v.Nil? || (v.Boxed? && v.ty != TAny && DistinctFields(v.ty) && HasType(v.data, v.ty))
    case TStruct(fs) =>
      v.Record? && |v.fields| == |fs| && forall i :: 0 <= i < |fs| ==> HasType(v.fields[i], fs[i].ty)
  }

  ghost predicate AllHaveType(vs: seq<Data>, e: Type) {
    forall i :: 0 <= i < |vs| ==> HasType(vs[i], e)
  }

  ghost predicate FieldsHaveType(vs: seq<Data>, fs: seq<Field>) {
    |vs| == |fs| && forall i :: 0 <= i < |fs| ==> HasType(vs[i], fs[i].ty)
  }

  /** reflect.New(t).Elem(). */
  function Zero(t: Type): (v: Data)
    ensures HasType(v, t)
  {
    match t
    case TBool => Flag(false)
    case TInt(_) => Int(0)
    case TString => Chars([])
    case TNumber => Chars([])
    case TSlice(_) => Nil
    case TArray(n, e) => Items(seq(n, _ => Zero(e)))
    case TMap(_, _) => Nil
    case TPtr(_) => Nil
    case TAny => Nil
    case TStruct(fs) => Record(seq(|fs|, i requires 0 <= i < |fs| => Zero(fs[i].ty)))
  }
}
