/** The JSON Schema (2020-12) a Go type is described by, and that what the encoder writes
    of the type validates against it. */
module Schemas {
  import opened Texts
  import opened Bits
  import opened GoData
  import opened KeyOrder
  import opened Encoding
  import N = Numbers
  import D = Decoding
  import W = Wire

  // --- validation ------------------------------------------------------------------

  datatype TypeName =
    | NullType | BooleanType | IntegerType | NumberType | StringType | BytesType | ArrayType | ObjectType

  /** What propertyNames asks of a key. */
  datatype Names = AnyName | SignedName | UnsignedName | BooleanName

  /** additionalProperties. */
  datatype Additional = Open | Closed | Each(schema: Schema)

  datatype Property = Property(name: Text, schema: Schema)

  /** A schema by its keywords, one left out asking nothing. */
  datatype Schema = Schema(
    ty: Option<TypeName>,
    minimum: Option<int>,
    maximum: Option<int>,
    items: Option<Schema>,
    minItems: Option<nat>,
    maxItems: Option<nat>,
    properties: seq<Property>,
    additional: Additional,
    required: seq<Text>,
    names: Names,
    anyOf: seq<Schema>)

  const EMPTY: Schema := Schema(None, None, None, None, None, None, [], Open, [], AnyName, [])

  function Typed(ty: TypeName): Schema {
    EMPTY.(ty := Some(ty))
  }

  /** The number a text in the grammar denotes. */
  ghost function NumberValue(text: Text): real
    requires N.IsNumber(text)
  {
    var a: nat, b: nat, c: nat :| N.SplitsAt(text, a, b, c);
    var size := (Digits(text[a..b]) as real + FracValue(text[b..c])) * ExpValue(text[c..]);
    if a == 1 then -size else size
  }

  ghost function Digits(s: Text): nat {
    match DigitsValue(s) case None => 0 case Some(n) => n
  }

  ghost function FracValue(s: Text): real {
    if s == [] then 0.0 else Digits(s[1..]) as real / Tens(|s| - 1)
  }

  ghost function ExpValue(s: Text): real {
    if s == [] then 1.0
    else if |s| > 1 && s[1] == MINUS then 1.0 / Tens(Digits(s[2..]))
    else if |s| > 1 && s[1] == PLUS then Tens(Digits(s[2..]))
    else Tens(Digits(s[1..]))
  }

  ghost function Tens(n: nat): (p: real)
    ensures p > 0.0
  {
    if n == 0 then 1.0 else 10.0 * Tens(n - 1)
  }

  /** The type keyword, section 6.1.1 of JSON Schema Validation; bytes is this
      project's own type. */
  ghost predicate IsOfType(t: W.Tree, ty: TypeName) {
    match ty
    case NullType => t.Null?
    case BooleanType => t.Bool?
    case IntegerType => t.Number? && N.IsNumber(t.text) && NumberValue(t.text) == NumberValue(t.text).Floor as real
    case NumberType => t.Number?
    case StringType => t.Str?
    case BytesType => t.Bytes?
    case ArrayType => t.List?
    case ObjectType => t.Map?
  }

  ghost predicate IsName(key: Text, names: Names) {
    match names
    case AnyName => true
    case UnsignedName => N.Int(key)
    case SignedName => N.Int(key) || (key != [] && key[0] == MINUS && N.Int(key[1..]))
    case BooleanName => key == D.TRUE || key == D.FALSE
  }

  ghost predicate Has(entries: seq<W.Entry>, key: Text) {
    exists i :: 0 <= i < |entries| && entries[i].key == key
  }

  function PropertyNamed(ps: seq<Property>, key: Text): (i: nat)
    ensures i <= |ps|
    ensures i < |ps| ==> ps[i].name == key
    ensures forall j :: 0 <= j < i ==> ps[j].name != key
  {
    if ps == [] || ps[0].name == key then 0 else 1 + PropertyNamed(ps[1..], key)
  }

  /** t validates against s: each keyword that applies to what t is, by sections 10.2
      and 10.3 of JSON Schema Core and section 6 of JSON Schema Validation. */
  ghost predicate Validates(t: W.Tree, s: Schema)
    decreases t, s
  {
    && (s.ty.Some? ==> IsOfType(t, s.ty.value))
    && (t.Number? && N.IsNumber(t.text) ==>
          && (s.minimum.Some? ==> s.minimum.value as real <= NumberValue(t.text))
          && (s.maximum.Some? ==> NumberValue(t.text) <= s.maximum.value as real))
    && (t.List? ==>
          && (s.minItems.Some? ==> s.minItems.value <= |t.items|)
          && (s.maxItems.Some? ==> |t.items| <= s.maxItems.value)
          && (s.items.Some? ==> forall i :: 0 <= i < |t.items| ==> Validates(t.items[i], s.items.value)))
    && (t.Map? ==>
          && (forall i :: 0 <= i < |s.required| ==> Has(t.entries, s.required[i]))
          && (forall i :: 0 <= i < |t.entries| ==>
            IsName(t.entries[i].key, s.names) && EntryValidates(t.entries[i], s)))
    && (s.anyOf != [] ==> exists i :: 0 <= i < |s.anyOf| && Validates(t, s.anyOf[i]))
  }

  /** A property validates against its own schema, any other by additionalProperties. */
  ghost predicate EntryValidates(e: W.Entry, s: Schema)
    decreases e, s, 0
  {
    var k := PropertyNamed(s.properties, e.key);
    if k < |s.properties| then Validates(e.value, s.properties[k].schema)
    else match s.additional
      case Open => true
      case Closed => false
      case Each(value) => Validates(e.value, value)
  }

  /** A map validates against an object's schema by its keys and its entries alone. */
  lemma ObjectValidates(t: W.Tree, s: Schema)
    requires t.Map? && s.ty == Some(ObjectType) && s.anyOf == []
    ensures Validates(t, s) <==>
      && (forall i :: 0 <= i < |s.required| ==> Has(t.entries, s.required[i]))
      && (forall i :: 0 <= i < |t.entries| ==> IsName(t.entries[i].key, s.names) && EntryValidates(t.entries[i], s))
  {
    hide IsName, EntryValidates, Has;
  }

  lemma EachValidates(entry: W.Entry, s: Schema)
    requires s.properties == [] && s.additional.Each?
    ensures EntryValidates(entry, s) <==> Validates(entry.value, s.additional.schema)
  {
    hide Validates;
  }

  // --- schemaFor -------------------------------------------------------------------

  /** intBounds, in 64-bit arithmetic: the 64-bit types' bounds are constants, which
      shifting would not reach. */
  function IntBounds(w: IntType): (int, int) {
    match w
    case Signed(bits) =>
      if bits == 64 then (-0x8000_0000_0000_0000, 0x7FFF_FFFF_FFFF_FFFF)
      else
        var half: int := ShiftLeft(1, bits - 1);
        (-half, half - 1)
    case Unsigned(bits) =>
      if bits == 64 then (0, 0xFFFF_FFFF_FFFF_FFFF) else (0, ShiftLeft(1, bits) - 1)
  }

  function NamesOf(kt: KeyType): Names {
    match kt
    case KeyString => AnyName
    case KeyInt(Signed(_)) => SignedName
    case KeyInt(Unsigned(_)) => UnsignedName
    case KeyBool => BooleanName
  }

  function SchemaFor(t: Type): Schema {
    match t
    case TNumber => Typed(NumberType)
    case TAny => EMPTY
    case TBool => Typed(BooleanType)
    case TInt(w) =>
      var (lo, hi) := IntBounds(w);
      Typed(IntegerType).(minimum := Some(lo), maximum := Some(hi))
    case TString => Typed(StringType)
    case TPtr(e) => EMPTY.(anyOf := [SchemaFor(e), Typed(NullType)])
    case TSlice(e) =>
      if e == UINT8 then Typed(BytesType) else Typed(ArrayType).(items := Some(SchemaFor(e)))
    case TArray(n, e) =>
      Typed(ArrayType).(items := Some(SchemaFor(e)), minItems := Some(n), maxItems := Some(n))
    case TMap(kt, e) => Typed(ObjectType).(additional := Each(SchemaFor(e)), names := NamesOf(kt))
    case TStruct(fs) =>
      Typed(ObjectType).(
        properties := seq(|fs|, i requires 0 <= i < |fs| => Property(fs[i].name, SchemaFor(fs[i].ty))),
        additional := Closed,
        required := Required(fs))
  }

  /** The names of the fields that are neither pointers nor omitempty. */
  function Required(fs: seq<Field>): (names: seq<Text>)
    ensures forall n :: n in names <==>
      exists i :: 0 <= i < |fs| && fs[i].name == n && !fs[i].ty.TPtr? && !fs[i].omitEmpty
  {
    if fs == [] then []
    else
      var last := |fs| - 1;
      assert forall i :: 0 <= i < last ==> fs[i] == fs[..last][i];
      Required(fs[..last]) + if fs[last].ty.TPtr? || fs[last].omitEmpty then [] else [fs[last].name]
  }

  // --- soundness -------------------------------------------------------------------

  lemma BoundsAreTheType(w: IntType)
    ensures IntBounds(w) == (Lo(w), Hi(w))
  {
    PowersOfWidths();
    hide Pow2;
    if w.bits == 8 {
    } else if w.bits == 16 {
    } else if w.bits == 32 {
    } else {
    }
  }

  lemma PowersOfWidths()
    ensures Pow2(7) == 0x80 && Pow2(8) == 0x100 && Pow2(15) == 0x8000 && Pow2(16) == 0x1_0000
    ensures Pow2(31) == 0x8000_0000 && Pow2(32) == 0x1_0000_0000
    ensures Pow2(63) == 0x8000_0000_0000_0000 && Pow2(64) == 0x1_0000_0000_0000_0000
  {
    Pow2Values();
    Pow2Adds(7, 1);
    Pow2Adds(8, 7);
    Pow2Adds(15, 1);
    Pow2Adds(16, 15);
    Pow2Adds(31, 1);
    Pow2Adds(63, 1);
    assert Pow2(1) == 2;
  }

  lemma IntegerHasItsValue(i: int)
    ensures N.IsNumber(FormatInt(i)) && NumberValue(FormatInt(i)) == i as real
  {
    var t := FormatInt(i);
    N.IntegersAreNumbers(i);
    var n: nat := if i < 0 then -i else i;
    FormatNatReads(n);
    var sign := if i < 0 then 1 else 0;
    assert t[sign..] == FormatNat(n);
    assert t[sign..|t|] == FormatNat(n);
    assert N.SplitsAt(t, sign, |t|, |t|) by { N.DigitsAreANumber(t[sign..], n); }
    forall a: nat, b: nat, c: nat | N.SplitsAt(t, a, b, c) ensures a == sign && b == |t| && c == |t| {
      N.SplitIsTheScan(t, a, b, c);
      N.SplitIsTheScan(t, sign, |t|, |t|);
    }
    assert t[|t|..|t|] == [] && t[|t|..] == [];
  }

  lemma KeyIsNamed(k: Key, kt: KeyType)
    requires KeyHasType(k, kt)
    ensures IsName(KeyText(k), NamesOf(kt))
  {
    if k.KNum? {
      var n: nat := if k.num < 0 then -k.num else k.num;
      N.DigitsAreANumber(FormatNat(n), n);
      if k.num < 0 { assert FormatInt(k.num)[1..] == FormatNat(n); }
    }
  }

  /** Every value the encoder writes of a type validates against the type's schema. */
  lemma {:induction false} EncodedValidates(ty: Type, v: Data, depth: nat)
    requires HasType(v, ty) && DistinctFields(ty) && Encode(ty, v, depth).Some?
    ensures Validates(Encode(ty, v, depth).value, SchemaFor(ty))
    decreases v, 2
  {
    var t := Encode(ty, v, depth).value;
    match ty
    case TInt(w) =>
      IntegerHasItsValue(v.num);
      BoundsAreTheType(w);
    case TPtr(e) =>
      if v.Nil? {
        assert Validates(t, Typed(NullType));
        assert SchemaFor(ty).anyOf[1] == Typed(NullType);
      } else {
        EncodedValidates(e, v.to, depth);
        assert SchemaFor(ty).anyOf[0] == SchemaFor(e);
      }
    case TSlice(e) => if v.Items? { ItemsValidate(v.items, e, depth + 1); }
    case TArray(_, e) => ItemsValidate(v.items, e, depth + 1);
    case TMap(kt, e) => if v.Dict? { MapValidates(kt, e, v, depth); }
    case TStruct(fs) => StructValidates(fs, v, depth);
    case _ =>
  }

  lemma {:induction false} ItemsValidate(vs: seq<Data>, e: Type, depth: nat)
    requires AllHaveType(vs, e) && DistinctFields(e) && EncodeItems(vs, e, depth, false).Some?
    ensures var ts := EncodeItems(vs, e, depth, false).value;
      forall i :: 0 <= i < |ts| ==> Validates(ts[i], SchemaFor(e))
    decreases vs
  {
    if vs != [] {
      EncodedValidates(e, vs[0], depth);
      ItemsValidate(vs[1..], e, depth);
    }
  }

  lemma {:induction false} DictValidates(kt: KeyType, e: Type, v: Data, ks: seq<Key>, depth: nat)
    requires HasType(v, TMap(kt, e)) && v.Dict? && DistinctFields(e)
    requires forall i :: 0 <= i < |ks| ==> ks[i] in v.dict
    requires EncodeDict(v, kt, e, ks, depth, false).Some?
    ensures var es := EncodeDict(v, kt, e, ks, depth, false).value;
      forall i :: 0 <= i < |es| ==> IsName(es[i].key, NamesOf(kt)) && Validates(es[i].value, SchemaFor(e))
    decreases v, 0, |ks|
  {
    if ks != [] {
      EncodedValidates(e, v.dict[ks[0]], depth);
      KeyIsNamed(ks[0], kt);
      DictValidates(kt, e, v, ks[1..], depth);
    }
  }

  lemma {:induction false} MapValidates(kt: KeyType, e: Type, v: Data, depth: nat)
    requires HasType(v, TMap(kt, e)) && v.Dict? && DistinctFields(e)
    requires Encode(TMap(kt, e), v, depth).Some?
    ensures Validates(Encode(TMap(kt, e), v, depth).value, SchemaFor(TMap(kt, e)))
    decreases v, 1
  {
    var t, s := Encode(TMap(kt, e), v, depth).value, SchemaFor(TMap(kt, e));
    assert Encode(TMap(kt, e), v, depth) == EncodeMap(kt, e, v, depth, false);
    SortedOnce(v.dict.Keys, Sorted(v.dict.Keys));
    DictValidates(kt, e, v, Sorted(v.dict.Keys), depth + 1);
    forall i | 0 <= i < |t.entries| ensures EntryValidates(t.entries[i], s) {
      EachValidates(t.entries[i], s);
    }
  }

  /** A field's entry validates against that field's own schema. */
  ghost predicate FieldValidates(entry: W.Entry, f: Field) {
    entry.key == f.name && Validates(entry.value, SchemaFor(f.ty))
  }

  lemma {:induction false} FieldsValidate(vs: seq<Data>, fs: seq<Field>, k: nat, depth: nat)
    requires FieldsHaveType(vs, fs) && k <= |fs| && forall i :: 0 <= i < |fs| ==> DistinctFields(fs[i].ty)
    requires EncodeFields(vs, fs, k, depth).Some?
    ensures var es := EncodeFields(vs, fs, k, depth).value;
      && (forall i :: 0 <= i < |es| ==> exists j :: k <= j < |fs| && FieldValidates(es[i], fs[j]))
      && (forall j :: k <= j < |fs| && !Omitted(fs[j], vs[j]) ==> Has(es, fs[j].name))
    decreases vs, |fs| - k
  {
    hide HasType, DistinctFields, Omitted, Encode, EncodeFields, Validates, SchemaFor;
    if k < |fs| {
      FieldsWrite(vs, fs, k, depth);
      FieldsValidate(vs, fs, k + 1, depth);
      if !Omitted(fs[k], vs[k]) {
        EncodedValidates(fs[k].ty, vs[k], depth);
        var head := W.Entry(fs[k].name, Encode(fs[k].ty, vs[k], depth).value);
        FieldJoins(head, EncodeFields(vs, fs, k + 1, depth).value, fs, vs, k);
      }
    }
  }

  lemma FieldJoins(head: W.Entry, rest: seq<W.Entry>, fs: seq<Field>, vs: seq<Data>, k: nat)
    requires FieldsHaveType(vs, fs) && k < |fs| && FieldValidates(head, fs[k])
    requires forall i :: 0 <= i < |rest| ==> exists j :: k < j < |fs| && FieldValidates(rest[i], fs[j])
    requires forall j :: k < j < |fs| && !Omitted(fs[j], vs[j]) ==> Has(rest, fs[j].name)
    ensures var es := [head] + rest;
      && (forall i :: 0 <= i < |es| ==> exists j :: k <= j < |fs| && FieldValidates(es[i], fs[j]))
      && (forall j :: k <= j < |fs| && !Omitted(fs[j], vs[j]) ==> Has(es, fs[j].name))
  {
    hide FieldValidates, Omitted;
    var es := [head] + rest;
    assert es[0].key == head.key;
    forall j | k <= j < |fs| && !Omitted(fs[j], vs[j]) ensures Has(es, fs[j].name) {
      if j > k {
        var i :| 0 <= i < |rest| && rest[i].key == fs[j].name;
        assert es[i + 1] == rest[i];
      } else {
        assert es[0].key == fs[j].name by { KeyOfField(head, fs[k]); }
      }
    }
  }

  lemma KeyOfField(entry: W.Entry, f: Field)
    requires FieldValidates(entry, f)
    ensures entry.key == f.name
  {
  }

  lemma {:induction false} StructValidates(fs: seq<Field>, v: Data, depth: nat)
    requires HasType(v, TStruct(fs)) && DistinctFields(TStruct(fs))
    requires Encode(TStruct(fs), v, depth).Some?
    ensures Validates(Encode(TStruct(fs), v, depth).value, SchemaFor(TStruct(fs)))
    decreases v, 1
  {
    var t, s := Encode(TStruct(fs), v, depth).value, SchemaFor(TStruct(fs));
    assert s.ty == Some(ObjectType) && s.anyOf == [] && s.names == AnyName && s.required == Required(fs);
    assert FieldsHaveType(v.fields, fs) && Some(t) == AsMap(EncodeFields(v.fields, fs, 0, depth + 1));
    hide HasType, DistinctFields, Omitted, Encode, EncodeFields, FieldValidates, Validates, EntryValidates, SchemaFor;
    FieldsValidate(v.fields, fs, 0, depth + 1);
    ObjectValidates(t, s);
    forall i | 0 <= i < |s.required| ensures Has(t.entries, s.required[i]) {
      assert s.required[i] in Required(fs);
      var j :| 0 <= j < |fs| && fs[j].name == s.required[i] && !fs[j].ty.TPtr? && !fs[j].omitEmpty;
      RequiredIsKept(fs[j], v.fields[j]);
    }
    forall i | 0 <= i < |t.entries| ensures EntryValidates(t.entries[i], s) {
      var j :| 0 <= j < |fs| && FieldValidates(t.entries[i], fs[j]);
      PropertyOfField(t.entries[i], fs, j);
    }
  }

  lemma RequiredIsKept(f: Field, v: Data)
    requires HasType(v, f.ty) && !f.ty.TPtr? && !f.omitEmpty
    ensures !Omitted(f, v)
  {
  }

  lemma {:induction false} PropertyOfField(entry: W.Entry, fs: seq<Field>, j: nat)
    requires DistinctNames(fs) && j < |fs| && FieldValidates(entry, fs[j])
    ensures EntryValidates(entry, SchemaFor(TStruct(fs)))
  {
    var s := SchemaFor(TStruct(fs));
    assert s.properties[j] == Property(fs[j].name, SchemaFor(fs[j].ty));
    assert PropertyNamed(s.properties, entry.key) == j;
  }
}
