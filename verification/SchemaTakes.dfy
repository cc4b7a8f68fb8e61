/** Of what a type's schema accepts, exactly what the type decodes from. */
module SchemaTakes {
  import opened Texts
  import opened GoData
  import opened Schemas
  import opened SchemaReads
  import opened Decoding
  import N = Numbers
  import P = PlainData
  import W = Wire

  // --- the spellings the reader asks for -----------------------------------------------------

  /** Digits, after a minus where the type has one. */
  ghost predicate Spelled(text: Text, signed: bool) {
    text != [] && (AllDigits(text) || (signed && text[0] == MINUS && |text| > 1 && AllDigits(text[1..])))
  }

  ghost predicate IsWhole(text: Text) {
    N.IsNumber(text) && NumberValue(text) == NumberValue(text).Floor as real
  }

  /** An integer with no leading zero. */
  ghost predicate IsNumeral(key: Text) {
    key != [] && N.Int(if key[0] == MINUS then key[1..] else key)
  }

  ghost function NumeralValue(key: Text): int
    requires key != []
  {
    if key[0] == MINUS then -(Digits(key[1..]) as int) else Digits(key)
  }

  /** A key that is an integer is one of the type's, and zero has no minus. */
  ghost predicate KeySpelled(key: Text, kt: KeyType) {
    kt.KeyInt? && IsNumeral(key) ==> key != [MINUS, ZERO] && Lo(kt.w) <= NumeralValue(key) <= Hi(kt.w)
  }

  /** Every number of t that is an integer, where one of the type's integers is to be, is
      digits after an optional sign, and every key that is an integer, where one is to be, is
      canonical and of its type. */
  ghost predicate AllSpelled(t: W.Tree, ty: Type)
    decreases t, ty
  {
    match ty
    case TInt(w) => t.Number? && IsWhole(t.text) ==> Spelled(t.text, w.Signed?)
    case TPtr(e) => AllSpelled(t, e)
    case TSlice(e) => t.List? ==> forall i :: 0 <= i < |t.items| ==> AllSpelled(t.items[i], e)
    case TArray(_, e) => t.List? ==> forall i :: 0 <= i < |t.items| ==> AllSpelled(t.items[i], e)
    case TMap(kt, e) => t.Map? ==> forall i :: 0 <= i < |t.entries| ==> EntrySpelled(t.entries[i], kt, e)
    case TStruct(fs) => t.Map? ==> forall i :: 0 <= i < |t.entries| ==> FieldSpelled(t.entries[i], fs)
    case _ => true
  }

  ghost predicate EntrySpelled(entry: W.Entry, kt: KeyType, e: Type)
    decreases entry
  {
    KeySpelled(entry.key, kt) && AllSpelled(entry.value, e)
  }

  ghost predicate FieldSpelled(entry: W.Entry, fs: seq<Field>)
    decreases entry
  {
    var k := FieldNamed(fs, entry.key);
    k < |fs| ==> AllSpelled(entry.value, fs[k].ty)
  }

  // --- integers ------------------------------------------------------------------------------

  lemma {:induction false} DigitsHaveValue(s: Text)
    requires s != [] && AllDigits(s)
    ensures DigitsValue(s).Some?
  {
    if |s| > 1 { DigitsHaveValue(s[..|s| - 1]); }
  }

  /** An integer within its type's bounds is read if and only if it is digits after an optional
      sign. */
  lemma {:induction false} IntegerIsRead(text: Text, w: IntType)
    requires N.IsNumber(text) && IsWhole(text) && Lo(w) as real <= NumberValue(text) <= Hi(w) as real
    ensures ReadInt(text, w).Some? <==> Spelled(text, w.Signed?)
  {
    hide NumberValue, Hi, Lo, N.IsNumber;
    if Spelled(text, w.Signed?) {
      var digits := if text[0] in [MINUS, PLUS] then text[1..] else text;
      DigitsHaveValue(digits);
      ParsedHasItsValue(text, DigitsValue(digits).value);
    } else if ReadInt(text, w).Some? {
      ReadHasSpelling(text, w);
    }
  }

  lemma {:induction false} ReadHasSpelling(text: Text, w: IntType)
    requires N.IsNumber(text) && ReadInt(text, w).Some?
    ensures Spelled(text, w.Signed?)
  {
    hide NumberValue, Hi, Lo, N.IsNumber;
    var digits := if w.Signed? && text != [] && text[0] in [MINUS, PLUS] then text[1..] else text;
    DigitsAreDigits(digits);
    if digits != text { ParsedHasItsValue(text, DigitsValue(digits).value); }
  }

  // --- keys ----------------------------------------------------------------------------------

  /** An integer with no leading zero is its value in decimal. */
  lemma {:induction false} NumeralIsItsValue(s: Text)
    requires N.Int(s)
    ensures DigitsValue(s).Some? && FormatNat(DigitsValue(s).value) == s
    ensures DigitsValue(s).value == 0 <==> s == [ZERO]
  {
    if |s| > 1 {
      var front := s[..|s| - 1];
      NumeralIsItsValue(front);
      assert s == front + [s[|s| - 1]];
    }
  }

  /** A numeral is parsed as its value, and is that value in decimal but for a zero's minus. */
  lemma {:induction false} NumeralParses(key: Text, lo: int, hi: int)
    requires IsNumeral(key)
    ensures var i := NumeralValue(key);
      && ParseInt(key, lo, hi) == (if lo <= i <= hi then Some(i) else None)
      && (key[0] != MINUS ==> i >= 0 && ParseUint(key, hi) == if i <= hi then Some(i) else None)
      && (FormatInt(i) == key <==> key != [MINUS, ZERO])
  {
    var digits := if key[0] == MINUS then key[1..] else key;
    NumeralIsItsValue(digits);
    if key[0] == MINUS { assert key == [MINUS] + digits; }
  }

  lemma {:induction false} KeyIsRead(key: Text, kt: KeyType)
    requires IsName(key, NamesOf(kt))
    ensures ReadKey(key, kt).Some? <==> KeySpelled(key, kt)
  {
    if kt.KeyInt? {
      assert IsNumeral(key) && (kt.w.Unsigned? ==> key[0] != MINUS && Lo(kt.w) == 0);
      hide Lo, Hi, IsNumeral, NumeralValue, ParseInt, ParseUint, FormatInt, IsName;
      NumeralParses(key, Lo(kt.w), Hi(kt.w));
    }
  }

  // --- what is accepted --------------------------------------------------------------------

  lemma {:induction false} ItemsDecodeEach(items: seq<W.Tree>, e: Type, into: seq<Data>, depth: nat)
    requires |items| == |into| && AllHaveType(into, e)
    ensures DecodeItems(TreeReader, items, e, into, depth).Some?
      <==> forall i :: 0 <= i < |items| ==> Decode(TreeReader, items[i], e, into[i], depth).Some?
    decreases |items|
  {
    hide Decode, HasType;
    if items != [] {
      ItemsDecodeEach(items[1..], e, into[1..], depth);
      forall i | 0 < i < |items| ensures items[i] == items[1..][i - 1] && into[i] == into[1..][i - 1] {}
    }
  }

  lemma {:induction false} EntriesDecodeEach(entries: seq<W.Entry>, kt: KeyType, e: Type, m: map<Key, Data>, depth: nat)
    requires DictHasType(m, kt, e)
    ensures DecodeDict(TreeReader, entries, kt, e, m, depth).Some?
      <==> forall i :: 0 <= i < |entries| ==>
             ReadKey(entries[i].key, kt).Some? && Decode(TreeReader, entries[i].value, e, Zero(e), depth).Some?
    decreases |entries|
  {
    hide Decode, HasType, DictHasType, ReadKey;
    if entries != [] {
      var k, v := ReadKey(entries[0].key, kt), Decode(TreeReader, entries[0].value, e, Zero(e), depth);
      if k.Some? && v.Some? { EntriesDecodeEach(entries[1..], kt, e, Put(m, kt, e, k.value, v.value), depth); }
      forall i | 0 < i < |entries| ensures entries[i] == entries[1..][i - 1] {}
    }
  }

  lemma {:induction false} FieldsDecodeEach(entries: seq<W.Entry>, fs: seq<Field>, vs: seq<Data>, k: nat, depth: nat)
    requires FieldsHaveType(vs, fs) && k <= |fs|
    ensures DecodeFields(entries, fs, vs, k, depth).Some?
      <==> forall j :: k <= j < |fs| ==> DecodeField(TreeReader, entries, fs[j], vs[j], depth).Some?
    decreases |fs| - k
  {
    hide DecodeField, HasType;
    if k < |fs| {
      var v := DecodeField(TreeReader, entries, fs[k], vs[k], depth);
      if v.Some? {
        FieldsDecodeEach(entries, fs, vs[k := v.value], k + 1, depth);
        forall j | k < j < |fs| ensures vs[k := v.value][j] == vs[j] {}
      }
    }
  }

  /** Of every tree within the limit that a type's schema accepts, the type decodes from exactly
      those that spell their integers as the reader asks, into any destination. */
  lemma {:induction false} AcceptedIsRead(t: W.Tree, ty: Type, dst: Data, depth: nat)
    requires HasType(dst, ty) && DistinctFields(ty) && W.WellFormed(t) && W.DistinctKeys(t) && W.Fits(t, depth)
    requires Validates(t, SchemaFor(ty))
    ensures Decode(TreeReader, t, ty, dst, depth).Some? <==> AllSpelled(t, ty)
    decreases t, ty, 2
  {
    hide HasType, DistinctFields, W.WellFormed, W.DistinctKeys, W.Fits, Validates, SchemaFor, Decode, AllSpelled;
    if t.Absent? {
      AbsentIsRead(ty, dst, depth);
    } else if IsScalar(ty) {
      LeafIsRead(t, ty, dst, depth);
    } else {
      match ty
      case TPtr(e) => PtrIsRead(t, e, dst, depth);
      case TAny => AnyIsRead(t, dst, depth);
      case TSlice(e) => ListIsRead(t, ty, dst, depth);
      case TArray(n, e) => ListIsRead(t, ty, dst, depth);
      case TMap(kt, e) => MapIsRead(t, kt, e, dst, depth);
      case TStruct(fs) => StructIsRead(t, fs, dst, depth);
    }
  }

  lemma {:induction false} AbsentIsRead(ty: Type, dst: Data, depth: nat)
    requires HasType(dst, ty)
    ensures Decode(TreeReader, W.Absent, ty, dst, depth).Some? && AllSpelled(W.Absent, ty)
    decreases ty
  {
    if ty.TPtr? { AbsentIsRead(ty.elem, Zero(ty.elem), depth); }
  }

  lemma {:induction false} LeafIsRead(t: W.Tree, ty: Type, dst: Data, depth: nat)
    requires IsScalar(ty) && HasType(dst, ty) && W.WellFormed(t) && W.Fits(t, depth) && !t.Absent?
    requires Validates(t, SchemaFor(ty))
    ensures Decode(TreeReader, t, ty, dst, depth).Some? <==> AllSpelled(t, ty)
  {
    hide NumberValue, Lo, Hi;
    if ty.TInt? {
      BoundsAreTheType(ty.w);
      IntegerIsRead(t.text, ty.w);
    }
  }

  lemma {:induction false} AnyIsRead(t: W.Tree, dst: Data, depth: nat)
    requires HasType(dst, TAny) && W.Fits(t, depth)
    ensures Decode(TreeReader, t, TAny, dst, depth).Some? && AllSpelled(t, TAny)
  {
    P.PlainIsFits(t, depth);
  }

  lemma {:induction false} PtrIsRead(t: W.Tree, e: Type, dst: Data, depth: nat)
    requires HasType(dst, TPtr(e)) && DistinctFields(TPtr(e)) && !t.Absent?
    requires W.WellFormed(t) && W.DistinctKeys(t) && W.Fits(t, depth) && Validates(t, SchemaFor(TPtr(e)))
    ensures Decode(TreeReader, t, TPtr(e), dst, depth).Some? <==> AllSpelled(t, TPtr(e))
    decreases t, e, 3
  {
    assert Decode(TreeReader, t, TPtr(e), dst, depth) == DecodePtr(TreeReader, t, e, dst, depth);
    hide W.WellFormed, W.DistinctKeys, Validates, SchemaFor, Decode;
    PtrValidates(t, e);
    if t.Null? { NullIsSpelled(e); } else { AcceptedIsRead(t, e, if dst.Nil? then Zero(e) else dst.to, depth); }
  }

  lemma {:induction false} NullIsSpelled(e: Type)
    ensures AllSpelled(W.Null, e)
    decreases e
  {
    if e.TPtr? { NullIsSpelled(e.elem); }
  }

  lemma {:induction false} ListIsRead(t: W.Tree, ty: Type, dst: Data, depth: nat)
    requires ((ty.TSlice? && ty.elem != UINT8) || ty.TArray?) && HasType(dst, ty) && DistinctFields(ty)
    requires W.WellFormed(t) && W.DistinctKeys(t) && W.Fits(t, depth) && Validates(t, SchemaFor(ty)) && !t.Absent?
    ensures Decode(TreeReader, t, ty, dst, depth).Some? <==> AllSpelled(t, ty)
    decreases t, ty, 0
  {
    hide HasType, DistinctFields, W.WellFormed, W.DistinctKeys, W.Fits;
    hide Validates, SchemaFor, Decode, DecodeItems, AllSpelled;
    ListFacts(t, ty, dst, depth);
    ListValidates(t, ty);
    var into := if ty.TSlice? then seq(|t.items|, _ => Zero(ty.elem)) else dst.items;
    ListDecodes(t, ty, dst, depth, into);
    ItemsDecodeEach(t.items, ty.elem, into, depth + 1);
    forall i | 0 <= i < |t.items|
      ensures Decode(TreeReader, t.items[i], ty.elem, into[i], depth + 1).Some? <==> AllSpelled(t.items[i], ty.elem)
    {
      AcceptedIsRead(t.items[i], ty.elem, into[i], depth + 1);
    }
  }

  lemma {:induction false} ListFacts(t: W.Tree, ty: Type, dst: Data, depth: nat)
    requires ((ty.TSlice? && ty.elem != UINT8) || ty.TArray?) && HasType(dst, ty) && DistinctFields(ty)
    requires W.WellFormed(t) && W.DistinctKeys(t) && W.Fits(t, depth) && Validates(t, SchemaFor(ty))
    ensures t.List? && (ty.TArray? ==> |t.items| == ty.length && dst.Items?)
    ensures DistinctFields(ty.elem) && depth <= W.MAX_DEPTH
    ensures forall i :: 0 <= i < |t.items| ==>
      W.WellFormed(t.items[i]) && W.DistinctKeys(t.items[i]) && W.Fits(t.items[i], depth + 1)
    ensures AllSpelled(t, ty) <==> forall i :: 0 <= i < |t.items| ==> AllSpelled(t.items[i], ty.elem)
  {
  }

  lemma {:induction false} ListDecodes(t: W.Tree, ty: Type, dst: Data, depth: nat, into: seq<Data>)
    requires t.List? && ((ty.TSlice? && ty.elem != UINT8) || (ty.TArray? && |t.items| == ty.length)) && HasType(dst, ty)
    requires depth <= W.MAX_DEPTH
    requires into == if ty.TSlice? then seq(|t.items|, _ => Zero(ty.elem)) else dst.items
    ensures |into| == |t.items| && AllHaveType(into, ty.elem)
    ensures Decode(TreeReader, t, ty, dst, depth) == Listed(DecodeItems(TreeReader, t.items, ty.elem, into, depth + 1))
  {
    if ty.TSlice? {
      assert Decode(TreeReader, t, ty, dst, depth) == DecodeSlice(TreeReader, t, ty.elem, depth);
    }
  }

  lemma {:induction false} MapIsRead(t: W.Tree, kt: KeyType, e: Type, dst: Data, depth: nat)
    requires HasType(dst, TMap(kt, e)) && DistinctFields(TMap(kt, e)) && !t.Absent?
    requires W.WellFormed(t) && W.DistinctKeys(t) && W.Fits(t, depth) && Validates(t, SchemaFor(TMap(kt, e)))
    ensures Decode(TreeReader, t, TMap(kt, e), dst, depth).Some? <==> AllSpelled(t, TMap(kt, e))
    decreases t, e, 2
  {
    assert t.Map?;
    var m := if dst.Nil? then map[] else dst.dict;
    assert Decode(TreeReader, t, TMap(kt, e), dst, depth) == DecodeMap(TreeReader, t, kt, e, dst, depth);
    assert DecodeMap(TreeReader, t, kt, e, dst, depth).Some?
      <==> DecodeDict(TreeReader, t.entries, kt, e, m, depth + 1).Some?;
    hide Validates, SchemaFor, Decode, DecodeDict, DecodeMap, IsName, ReadKey, KeySpelled;
    SchemaReads.MapValidates(t, kt, e);
    EntriesDecodeEach(t.entries, kt, e, m, depth + 1);
    forall i | 0 <= i < |t.entries|
      ensures ReadKey(t.entries[i].key, kt).Some? <==> KeySpelled(t.entries[i].key, kt)
      ensures Decode(TreeReader, t.entries[i].value, e, Zero(e), depth + 1).Some?
        <==> AllSpelled(t.entries[i].value, e)
    {
      KeyIsRead(t.entries[i].key, kt);
      AcceptedIsRead(t.entries[i].value, e, Zero(e), depth + 1);
    }
  }

  lemma {:induction false} StructIsRead(t: W.Tree, fs: seq<Field>, dst: Data, depth: nat)
    requires HasType(dst, TStruct(fs)) && DistinctFields(TStruct(fs)) && !t.Absent?
    requires W.WellFormed(t) && W.DistinctKeys(t) && W.Fits(t, depth) && Validates(t, SchemaFor(TStruct(fs)))
    ensures Decode(TreeReader, t, TStruct(fs), dst, depth).Some? <==> AllSpelled(t, TStruct(fs))
    decreases t, fs, 2
  {
    assert t.Map?;
    var vs := dst.fields;
    assert Decode(TreeReader, t, TStruct(fs), dst, depth) == DecodeStruct(TreeReader, t, fs, vs, depth);
    FieldsDecodeEach(t.entries, fs, vs, 0, depth + 1);
    forall j | 0 <= j < |fs|
      ensures var i := FindKey(t.entries, fs[j].name);
        DecodeField(TreeReader, t.entries, fs[j], vs[j], depth + 1).Some?
        <==> i < |t.entries| ==> AllSpelled(t.entries[i].value, fs[j].ty)
    {
      FieldIsRead(t, fs, vs, depth, j);
    }
    SpelledByField(t, fs);
  }

  lemma {:induction false} FieldIsRead(t: W.Tree, fs: seq<Field>, vs: seq<Data>, depth: nat, j: nat)
    requires t.Map? && FieldsHaveType(vs, fs) && DistinctFields(TStruct(fs)) && j < |fs|
    requires W.WellFormed(t) && W.DistinctKeys(t) && W.Fits(t, depth) && Validates(t, SchemaFor(TStruct(fs)))
    ensures var i := FindKey(t.entries, fs[j].name);
      DecodeField(TreeReader, t.entries, fs[j], vs[j], depth + 1).Some?
      <==> i < |t.entries| ==> AllSpelled(t.entries[i].value, fs[j].ty)
    decreases t, fs, 1
  {
    hide HasType, DistinctFields, W.WellFormed, W.DistinctKeys, W.Fits;
    hide Validates, SchemaFor, Decode, AllSpelled, FindKey;
    var i := FindKey(t.entries, fs[j].name);
    if i < |t.entries| {
      FieldFacts(t, fs, depth, j, i);
      AcceptedIsRead(t.entries[i].value, fs[j].ty, vs[j], depth + 1);
    }
  }

  lemma {:induction false} FieldFacts(t: W.Tree, fs: seq<Field>, depth: nat, j: nat, i: nat)
    requires t.Map? && DistinctFields(TStruct(fs)) && j < |fs| && i < |t.entries| && t.entries[i].key == fs[j].name
    requires W.WellFormed(t) && W.DistinctKeys(t) && W.Fits(t, depth) && Validates(t, SchemaFor(TStruct(fs)))
    ensures var v := t.entries[i].value;
      && W.WellFormed(v) && W.DistinctKeys(v) && W.Fits(v, depth + 1)
      && DistinctFields(fs[j].ty) && Validates(v, SchemaFor(fs[j].ty))
  {
    var s := SchemaFor(TStruct(fs));
    FieldIsProperty(fs, fs[j].name);
    assert s.properties[j] == Property(fs[j].name, SchemaFor(fs[j].ty));
    assert EntryValidates(t.entries[i], s);
  }

  lemma {:induction false} SpelledByField(t: W.Tree, fs: seq<Field>)
    requires t.Map? && DistinctNames(fs) && W.DistinctKeys(t)
    ensures AllSpelled(t, TStruct(fs)) <==>
      forall j :: 0 <= j < |fs| ==>
        var i := FindKey(t.entries, fs[j].name); i < |t.entries| ==> AllSpelled(t.entries[i].value, fs[j].ty)
  {
    forall j | 0 <= j < |fs|
      ensures var i := FindKey(t.entries, fs[j].name); i < |t.entries| ==> FieldNamed(fs, t.entries[i].key) == j {}
    forall i | 0 <= i < |t.entries|
      ensures var j := FieldNamed(fs, t.entries[i].key); j < |fs| ==> FindKey(t.entries, fs[j].name) == i {}
  }

  // --- accepted and not read -----------------------------------------------------------------

  ghost predicate AcceptedNotRead(t: W.Tree, ty: Type) {
    && DistinctFields(ty) && W.WellFormed(t) && W.DistinctKeys(t) && W.Fits(t, 0)
    && Validates(t, SchemaFor(ty)) && Decode(TreeReader, t, ty, Zero(ty), 0).None?
  }

  /** Zero with a minus is an integer within an unsigned type's bounds, and matches the pattern
      of signed keys; neither is read. */
  lemma AcceptedButNotRead()
    ensures AcceptedNotRead(W.Number([MINUS, ZERO]), TInt(Unsigned(8)))
    ensures AcceptedNotRead(W.Map([W.Entry([MINUS, ZERO], W.Null)]), TMap(KeyInt(Signed(8)), TAny))
  {
    MinusZeroIsANumber();
    MinusZeroIsAKey();
  }

  lemma MinusZeroIsANumber()
    ensures AcceptedNotRead(W.Number([MINUS, ZERO]), TInt(Unsigned(8)))
  {
    var t := [MINUS, ZERO];
    assert N.SplitsAt(t, 1, 2, 2) by {
      assert t[..1] == [MINUS] && t[1..2] == [ZERO] && t[2..2] == [] && t[2..] == [];
    }
    assert DigitsValue(t[1..]) == Some(0);
    ParsedHasItsValue(t, 0);
    BoundsAreTheType(Unsigned(8));
    hide NumberValue, IntBounds;
    assert !Spelled(t, false);
    AcceptedIsRead(W.Number(t), TInt(Unsigned(8)), Int(0), 0);
  }

  lemma MinusZeroIsAKey()
    ensures AcceptedNotRead(W.Map([W.Entry([MINUS, ZERO], W.Null)]), TMap(KeyInt(Signed(8)), TAny))
  {
    var key, ty := [MINUS, ZERO], TMap(KeyInt(Signed(8)), TAny);
    var es := [W.Entry(key, W.Null)];
    AsciiIsUtf8(key);
    assert key[1..] == [ZERO];
    SchemaReads.MapValidates(W.Map(es), KeyInt(Signed(8)), TAny);
    AnythingGoes(W.Null);
    assert IsNumeral(key) && !KeySpelled(key, KeyInt(Signed(8)));
    assert !EntrySpelled(es[0], KeyInt(Signed(8)), TAny);
    assert IsName(key, NamesOf(KeyInt(Signed(8)))) && Validates(W.Map(es), SchemaFor(ty));
    OneEntry(es[0]);
    hide Validates, SchemaFor;
    AcceptedIsRead(W.Map(es), ty, Zero(ty), 0);
  }

  lemma {:induction false} OneEntry(e: W.Entry)
    requires W.WellFormedEntry(e) && W.DistinctKeys(e.value) && W.Fits(e.value, 1)
    ensures W.WellFormed(W.Map([e])) && W.DistinctKeys(W.Map([e])) && W.Fits(W.Map([e]), 0)
  {
  }
}
