/** Of what a type decodes from, exactly what its schema describes. */
module SchemaReads {
  import opened Texts
  import opened Bits
  import opened GoData
  import opened Encoding
  import opened Schemas
  import opened Decoding
  import N = Numbers
  import W = Wire

  /** No absent node and no null stands where a slice, an array, a map, a struct or a leaf is
      to be, and every map where a struct is to be has each required key and no other than the
      fields'; free where anything goes. */
  ghost predicate Described(t: W.Tree, ty: Type)
    decreases t, ty
  {
    match ty
    case TAny => true
    case TPtr(e) => t.Null? || Described(t, e)
    case TSlice(e) => if e == UINT8 then !t.Absent? else t.List? && AllDescribed(t, e)
    case TArray(_, e) => t.List? && AllDescribed(t, e)
    case TMap(_, e) => t.Map? && forall i :: 0 <= i < |t.entries| ==> Described(t.entries[i].value, e)
    case TStruct(fs) =>
      && t.Map?
      && (forall i :: 0 <= i < |Required(fs)| ==> Has(t.entries, Required(fs)[i]))
      && (forall i :: 0 <= i < |t.entries| ==> EntryDescribed(t.entries[i], fs))
    case _ => !t.Absent?
  }

  ghost predicate AllDescribed(t: W.Tree, e: Type)
    requires t.List?
    decreases t, e, 0
  {
    forall i :: 0 <= i < |t.items| ==> Described(t.items[i], e)
  }

  ghost predicate EntryDescribed(entry: W.Entry, fs: seq<Field>)
    decreases entry
  {
    var k := FieldNamed(fs, entry.key);
    k < |fs| && Described(entry.value, fs[k].ty)
  }

  // --- what a read that succeeds has read ---------------------------------------------------

  lemma {:induction false} DigitsAreDigits(s: Text)
    requires DigitsValue(s).Some?
    ensures s != [] && AllDigits(s)
  {
    if |s| > 1 { DigitsAreDigits(s[..|s| - 1]); }
  }

  /** A number in the grammar that is digits past its sign is all integer. */
  lemma AllInteger(t: Text, start: nat, a: nat, b: nat, c: nat)
    requires t != [] && start == (if t[0] in [MINUS, PLUS] then 1 else 0)
    requires AllDigits(t[start..]) && N.SplitsAt(t, a, b, c)
    ensures a == start && b == |t| && c == |t| && t[0] != PLUS
  {
    N.SplitIsTheScan(t, a, b, c);
    assert t[a..b][0] == t[a];
    forall k | start <= k < |t| ensures IsDigit(t[k]) {
      assert t[k] == t[start..][k - start];
    }
  }

  /** A number in the grammar that an integer is parsed from has that integer's value. */
  lemma {:induction false} ParsedHasItsValue(t: Text, n: nat)
    requires N.IsNumber(t) && t != []
    requires DigitsValue(if t[0] in [MINUS, PLUS] then t[1..] else t) == Some(n)
    ensures t[0] != PLUS && NumberValue(t) == if t[0] == MINUS then -(n as real) else n as real
  {
    var start := if t[0] in [MINUS, PLUS] then 1 else 0;
    DigitsAreDigits(t[start..]);
    var a: nat, b: nat, c: nat :| N.SplitsAt(t, a, b, c);
    forall a: nat, b: nat, c: nat | N.SplitsAt(t, a, b, c) ensures a == start && b == |t| && c == |t| && t[0] != PLUS {
      AllInteger(t, start, a, b, c);
    }
    assert t[start..|t|] == t[start..] && t[|t|..|t|] == [] && t[|t|..] == [];
  }

  lemma {:induction false} ReadIntHasItsValue(t: Text, w: IntType)
    requires N.IsNumber(t) && ReadInt(t, w).Some?
    ensures NumberValue(t) == ReadInt(t, w).value.num as real && Lo(w) <= ReadInt(t, w).value.num <= Hi(w)
  {
    hide NumberValue, N.IsNumber, Hi, Pow2;
    var digits := if t[0] in [MINUS, PLUS] then t[1..] else t;
    if w.Unsigned? {
      DigitsAreDigits(t);
      assert IsDigit(t[0]) && digits == t;
    }
    hide DigitsValue;
    ParsedHasItsValue(t, DigitsValue(digits).value);
  }

  lemma {:induction false} ScalarIsDescribed(t: W.Tree, ty: Type)
    requires IsScalar(ty) && W.WellFormed(t) && Scalar(t, ty).Some?
    ensures Validates(t, SchemaFor(ty))
  {
    if ty.TInt? {
      ReadIntHasItsValue(t.text, ty.w);
      BoundsAreTheType(ty.w);
    }
  }

  lemma {:induction false} ItemDecodes(items: seq<W.Tree>, e: Type, into: seq<Data>, depth: nat, i: nat)
    requires i < |items| == |into| && AllHaveType(into, e) && DecodeItems(TreeReader, items, e, into, depth).Some?
    ensures Decode(TreeReader, items[i], e, into[i], depth).Some?
    decreases |items|
  {
    if i > 0 { ItemDecodes(items[1..], e, into[1..], depth, i - 1); }
  }

  lemma {:induction false} EntryDecodes(entries: seq<W.Entry>, kt: KeyType, e: Type, m: map<Key, Data>, depth: nat,
        i: nat)
    requires i < |entries| && DictHasType(m, kt, e) && DecodeDict(TreeReader, entries, kt, e, m, depth).Some?
    ensures ReadKey(entries[i].key, kt).Some? && Decode(TreeReader, entries[i].value, e, Zero(e), depth).Some?
    decreases |entries|
  {
    if i > 0 {
      var k := ReadKey(entries[0].key, kt).value;
      var v := Decode(TreeReader, entries[0].value, e, Zero(e), depth).value;
      EntryDecodes(entries[1..], kt, e, Put(m, kt, e, k, v), depth, i - 1);
    }
  }

  lemma {:induction false} FieldDecodes(entries: seq<W.Entry>, fs: seq<Field>, vs: seq<Data>, k: nat, depth: nat,
        j: nat)
    requires FieldsHaveType(vs, fs) && k <= j < |fs| && DecodeFields(entries, fs, vs, k, depth).Some?
    ensures DecodeField(TreeReader, entries, fs[j], vs[j], depth).Some?
    decreases j - k
  {
    if k < j {
      var v := DecodeField(TreeReader, entries, fs[k], vs[k], depth).value;
      FieldDecodes(entries, fs, vs[k := v], k + 1, depth, j);
    }
  }

  lemma {:induction false} ReadKeyIsNamed(key: Text, kt: KeyType)
    requires ReadKey(key, kt).Some?
    ensures IsName(key, NamesOf(kt))
  {
    var k := ReadKey(key, kt).value;
    KeyIsNamed(k, kt);
    assert KeyText(k) == key;
  }

  // --- the schema against the reader ---------------------------------------------------------

  /** The documentation says the schema describes what a type decodes from. Of every tree the
      type is read from it describes exactly those Described says: what is read although it is
      not described is an absent node or a null that reads as a nil, a key no field has, or
      the lack of a required one. */
  lemma {:induction false} ReadIsDescribed(t: W.Tree, ty: Type, dst: Data, depth: nat)
    requires HasType(dst, ty) && DistinctFields(ty) && W.WellFormed(t) && W.DistinctKeys(t)
    requires Decode(TreeReader, t, ty, dst, depth).Some?
    ensures Validates(t, SchemaFor(ty)) <==> Described(t, ty)
    decreases t, ty, 3
  {
    hide Validates, SchemaFor, Described, W.WellFormed, W.DistinctKeys;
    if t.Absent? {
      AbsentIsDescribed(ty);
    } else if IsScalar(ty) {
      PresentLeaf(t, ty);
      ScalarIsDescribed(t, ty);
    } else {
      match ty
      case TPtr(e) => PtrIsDescribed(t, e, dst, depth);
      case TAny => AnythingGoes(t);
      case TSlice(e) =>
        if t.List? { ListIsDescribed(t, ty, seq(|t.items|, _ => Zero(e)), depth + 1); } else { NullIsNot(ty); }
      case TArray(n, e) => ListIsDescribed(t, ty, dst.items, depth + 1);
      case TMap(kt, e) =>
        if t.Map? { MapIsDescribed(t, kt, e, if dst.Nil? then map[] else dst.dict, depth + 1); } else { NullIsNot(ty); }
      case TStruct(fs) => StructIsDescribed(t, fs, dst.fields, depth + 1);
    }
  }

  lemma PresentLeaf(t: W.Tree, ty: Type)
    requires IsScalar(ty) && !t.Absent?
    ensures Described(t, ty)
  {
  }

  lemma AnythingGoes(t: W.Tree)
    ensures Validates(t, SchemaFor(TAny)) && Described(t, TAny)
  {
    forall i | t.Map? && 0 <= i < |t.entries| ensures EntryValidates(t.entries[i], EMPTY) {
      assert PropertyNamed(EMPTY.properties, t.entries[i].key) == 0;
    }
  }

  lemma NullIsNot(ty: Type)
    requires ty.TMap? || (ty.TSlice? && ty.elem != UINT8)
    ensures !Validates(W.Null, SchemaFor(ty)) && !Described(W.Null, ty)
  {
  }

  lemma {:induction false} AbsentIsDescribed(ty: Type)
    ensures Validates(W.Absent, SchemaFor(ty)) <==> Described(W.Absent, ty)
    decreases ty
  {
    if ty.TPtr? {
      AbsentIsDescribed(ty.elem);
      PtrValidates(W.Absent, ty.elem);
    }
  }

  lemma EitherValidates(t: W.Tree, a: Schema, b: Schema)
    ensures Validates(t, EMPTY.(anyOf := [a, b])) <==> Validates(t, a) || Validates(t, b)
  {
    var s := EMPTY.(anyOf := [a, b]);
    assert s.anyOf[0] == a && s.anyOf[1] == b;
    forall i | t.Map? && 0 <= i < |t.entries| ensures EntryValidates(t.entries[i], s) {
      assert PropertyNamed(s.properties, t.entries[i].key) == 0;
    }
  }

  lemma NullValidates(t: W.Tree)
    ensures Validates(t, Typed(NullType)) <==> t.Null?
  {
  }

  lemma PtrValidates(t: W.Tree, e: Type)
    ensures Validates(t, SchemaFor(TPtr(e))) <==> t.Null? || Validates(t, SchemaFor(e))
  {
    assert SchemaFor(TPtr(e)) == EMPTY.(anyOf := [SchemaFor(e), Typed(NullType)]);
    hide Validates, SchemaFor;
    EitherValidates(t, SchemaFor(e), Typed(NullType));
    NullValidates(t);
  }

  lemma {:induction false} PtrIsDescribed(t: W.Tree, e: Type, dst: Data, depth: nat)
    requires HasType(dst, TPtr(e)) && DistinctFields(e) && W.WellFormed(t) && W.DistinctKeys(t) && !t.Absent?
    requires Decode(TreeReader, t, TPtr(e), dst, depth).Some?
    ensures Validates(t, SchemaFor(TPtr(e))) <==> Described(t, TPtr(e))
    decreases t, e, 4
  {
    hide Validates, SchemaFor;
    PtrValidates(t, e);
    assert Decode(TreeReader, t, TPtr(e), dst, depth) == DecodePtr(TreeReader, t, e, dst, depth);
    if !t.Null? {
      ReadIsDescribed(t, e, if dst.Nil? then Zero(e) else dst.to, depth);
    }
  }

  lemma ListValidates(t: W.Tree, ty: Type)
    requires t.List? && ((ty.TSlice? && ty.elem != UINT8) || (ty.TArray? && |t.items| == ty.length))
    ensures Validates(t, SchemaFor(ty)) <==>
      forall i :: 0 <= i < |t.items| ==> Validates(t.items[i], SchemaFor(ty.elem))
    ensures Described(t, ty) <==> forall i :: 0 <= i < |t.items| ==> Described(t.items[i], ty.elem)
  {
    assert SchemaFor(ty).items == Some(SchemaFor(ty.elem));
  }

  lemma {:induction false} ListIsDescribed(t: W.Tree, ty: Type, into: seq<Data>, depth: nat)
    requires t.List? && ((ty.TSlice? && ty.elem != UINT8) || (ty.TArray? && |t.items| == ty.length))
    requires W.WellFormed(t) && W.DistinctKeys(t) && DistinctFields(ty.elem)
    requires |into| == |t.items| && AllHaveType(into, ty.elem)
    requires DecodeItems(TreeReader, t.items, ty.elem, into, depth).Some?
    ensures Validates(t, SchemaFor(ty)) <==> Described(t, ty)
    decreases t, ty, 0
  {
    hide Validates, SchemaFor, Described, DecodeItems;
    ListValidates(t, ty);
    forall i | 0 <= i < |t.items|
      ensures Validates(t.items[i], SchemaFor(ty.elem)) <==> Described(t.items[i], ty.elem)
    {
      ItemDecodes(t.items, ty.elem, into, depth, i);
      ReadIsDescribed(t.items[i], ty.elem, into[i], depth);
    }
  }

  lemma MapValidates(t: W.Tree, kt: KeyType, e: Type)
    requires t.Map?
    ensures Validates(t, SchemaFor(TMap(kt, e))) <==>
      forall i :: 0 <= i < |t.entries| ==>
        IsName(t.entries[i].key, NamesOf(kt)) && Validates(t.entries[i].value, SchemaFor(e))
  {
    var s := SchemaFor(TMap(kt, e));
    assert s.ty == Some(ObjectType) && s.required == [] && s.anyOf == [] && s.properties == [];
    assert s.additional == Each(SchemaFor(e)) && s.names == NamesOf(kt);
    hide IsName, Validates, SchemaFor, EntryValidates;
    ObjectValidates(t, s);
    forall i | 0 <= i < |t.entries|
      ensures EntryValidates(t.entries[i], s) <==> Validates(t.entries[i].value, SchemaFor(e))
    {
      EachValidates(t.entries[i], s);
    }
  }

  lemma {:induction false} MapIsDescribed(t: W.Tree, kt: KeyType, e: Type, m: map<Key, Data>, depth: nat)
    requires t.Map? && W.WellFormed(t) && W.DistinctKeys(t) && DistinctFields(e) && DictHasType(m, kt, e)
    requires DecodeDict(TreeReader, t.entries, kt, e, m, depth).Some?
    ensures Validates(t, SchemaFor(TMap(kt, e))) <==> Described(t, TMap(kt, e))
    decreases t, e, 0
  {
    hide Validates, SchemaFor, DecodeDict, IsName, ReadKey;
    MapValidates(t, kt, e);
    forall i | 0 <= i < |t.entries|
      ensures IsName(t.entries[i].key, NamesOf(kt))
      ensures Validates(t.entries[i].value, SchemaFor(e)) <==> Described(t.entries[i].value, e)
    {
      EntryDecodes(t.entries, kt, e, m, depth, i);
      ReadKeyIsNamed(t.entries[i].key, kt);
      ReadIsDescribed(t.entries[i].value, e, Zero(e), depth);
    }
  }

  lemma FieldIsProperty(fs: seq<Field>, key: Text)
    ensures PropertyNamed(SchemaFor(TStruct(fs)).properties, key) == FieldNamed(fs, key)
  {
    var ps := SchemaFor(TStruct(fs)).properties;
    assert forall i :: 0 <= i < |fs| ==> ps[i].name == fs[i].name;
  }

  lemma {:induction false} EntryIsDescribed(t: W.Tree, fs: seq<Field>, vs: seq<Data>, depth: nat, i: nat)
    requires t.Map? && W.WellFormed(t) && W.DistinctKeys(t) && DistinctFields(TStruct(fs)) && FieldsHaveType(vs, fs)
    requires i < |t.entries| && DecodeFields(t.entries, fs, vs, 0, depth).Some?
    ensures EntryValidates(t.entries[i], SchemaFor(TStruct(fs))) <==> EntryDescribed(t.entries[i], fs)
    decreases t, fs, 0
  {
    var entry, s := t.entries[i], SchemaFor(TStruct(fs));
    var k := FieldNamed(fs, entry.key);
    FieldIsProperty(fs, entry.key);
    if k < |fs| {
      assert s.properties[k] == Property(fs[k].name, SchemaFor(fs[k].ty));
      FieldDecodes(t.entries, fs, vs, 0, depth, k);
      assert FindKey(t.entries, fs[k].name) == i;
      hide DecodeFields, SchemaFor, Validates, FieldNamed, FindKey;
      ReadIsDescribed(entry.value, fs[k].ty, vs[k], depth);
    }
  }

  lemma {:induction false} StructIsDescribed(t: W.Tree, fs: seq<Field>, vs: seq<Data>, depth: nat)
    requires t.Map? && W.WellFormed(t) && W.DistinctKeys(t) && DistinctFields(TStruct(fs)) && FieldsHaveType(vs, fs)
    requires DecodeFields(t.entries, fs, vs, 0, depth).Some?
    ensures Validates(t, SchemaFor(TStruct(fs))) <==> Described(t, TStruct(fs))
    decreases t, fs, 1
  {
    hide DecodeFields, W.WellFormed, W.DistinctKeys, HasType, EntryValidates, EntryDescribed;
    forall i | 0 <= i < |t.entries|
      ensures EntryValidates(t.entries[i], SchemaFor(TStruct(fs))) <==> EntryDescribed(t.entries[i], fs)
    {
      EntryIsDescribed(t, fs, vs, depth, i);
    }
  }

  // --- the ways the two part ----------------------------------------------------------------

  ghost predicate ReadNotDescribed(t: W.Tree, ty: Type) {
    && DistinctFields(ty) && W.WellFormed(t) && W.DistinctKeys(t)
    && Decode(TreeReader, t, ty, Zero(ty), 0).Some? && !Validates(t, SchemaFor(ty))
  }

  /** Read and refused by the schema: a null where a slice or a map is to be, a key no field
      has, a required key left out, and an absent node. */
  lemma ReadButNotDescribed(e: Type)
    requires e != UINT8 && DistinctFields(e)
    ensures ReadNotDescribed(W.Null, TSlice(e)) && ReadNotDescribed(W.Null, TMap(KeyString, e))
    ensures ReadNotDescribed(W.Map([W.Entry([], W.Null)]), TStruct([]))
    ensures ReadNotDescribed(W.Map([]), TStruct([Field([120], TBool, false)]))
    ensures ReadNotDescribed(W.Absent, TBool)
  {
    hide ReadNotDescribed;
    NullIsRead(TSlice(e));
    NullIsRead(TMap(KeyString, e));
    ExtraKeyIsRead();
    MissingKeyIsRead();
    AbsentIsRead();
  }

  lemma AbsentIsRead()
    ensures ReadNotDescribed(W.Absent, TBool)
  {
  }

  lemma NullIsRead(ty: Type)
    requires DistinctFields(ty) && (ty.TMap? || (ty.TSlice? && ty.elem != UINT8))
    ensures ReadNotDescribed(W.Null, ty)
  {
    hide Validates, SchemaFor;
    NullIsNot(ty);
    if ty.TSlice? {
      assert Decode(TreeReader, W.Null, ty, Nil, 0) == DecodeSlice(TreeReader, W.Null, ty.elem, 0);
    } else {
      assert Decode(TreeReader, W.Null, ty, Nil, 0) == DecodeMap(TreeReader, W.Null, ty.key, ty.elem, Nil, 0);
    }
  }

  lemma ExtraKeyIsRead()
    ensures ReadNotDescribed(W.Map([W.Entry([], W.Null)]), TStruct([]))
  {
    var t, fs: seq<Field>, vs: seq<Data> := W.Map([W.Entry([], W.Null)]), [], [];
    AsciiIsUtf8([]);
    assert DecodeFields(t.entries, fs, vs, 0, 1) == Some(vs);
    assert Decode(TreeReader, t, TStruct(fs), Record(vs), 0) == DecodeStruct(TreeReader, t, fs, vs, 0);
    assert Zero(TStruct(fs)) == Record(vs);
    assert !EntryDescribed(t.entries[0], fs);
    ReadIsDescribed(t, TStruct(fs), Record(vs), 0);
  }

  lemma MissingKeyIsRead()
    ensures ReadNotDescribed(W.Map([]), TStruct([Field([120], TBool, false)]))
  {
    var t, fs, vs := W.Map([]), [Field([120], TBool, false)], [Flag(false)];
    hide Validates, SchemaFor;
    NothingIsRead(fs, vs);
    RequiredIsMissing(fs);
    ReadIsDescribed(t, TStruct(fs), Record(vs), 0);
  }

  lemma NothingIsRead(fs: seq<Field>, vs: seq<Data>)
    requires fs == [Field([120], TBool, false)] && vs == [Flag(false)]
    ensures Zero(TStruct(fs)) == Record(vs)
    ensures Decode(TreeReader, W.Map([]), TStruct(fs), Record(vs), 0) == Some(Record(vs))
  {
    assert Zero(TStruct(fs)).fields == vs;
    assert DecodeField(TreeReader, [], fs[0], vs[0], 1) == Some(vs[0]);
    assert vs[0 := vs[0]] == vs && DecodeFields([], fs, vs, 1, 1) == Some(vs);
    assert DecodeFields([], fs, vs, 0, 1) == Some(vs);
    assert Decode(TreeReader, W.Map([]), TStruct(fs), Record(vs), 0) == DecodeStruct(TreeReader, W.Map([]), fs, vs, 0);
  }

  lemma RequiredIsMissing(fs: seq<Field>)
    requires fs == [Field([120], TBool, false)]
    ensures !Described(W.Map([]), TStruct(fs))
  {
    assert fs[..0] == [] && Required(fs) == [fs[0].name];
    assert Required(fs)[0] == fs[0].name && !Has([], fs[0].name);
  }
}
