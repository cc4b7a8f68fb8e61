/** Marshalling straight to bytes and from them, held to what building the tree would do. */
module Marshalling {
  import opened Texts
  import opened GoData
  import opened Encoding
  import opened Encoded
  import opened Events
  import opened Wire
  import opened TapeSteps
  import opened Tapes
  import opened Sinks
  import Encoders
  import D = Decoding
  import P = PlainData
  import R = Readers
  import RT = RoundTrip

  /** The tree some bytes hold, whole, no map holding a key twice. */
  ghost function FromWire(data: Text): Option<Tree> {
    match Parse(data)
    case Refused => None
    case Read(t, rest) => if rest == [] && DistinctKeys(t) then Some(t) else None
  }

  // --- reading -------------------------------------------------------------------

  /** Within the nesting limit nothing passed over is too deep. */
  lemma {:induction false} FittingSkipsFit(t: Tree, ty: Type, depth: nat)
    requires Fits(t, depth)
    ensures R.SkipsFit(t, ty, depth)
    decreases t, ty
  {
    match ty
    case TPtr(e) => FittingSkipsFit(t, e, depth);
    case TSlice(e) => if t.List? { ItemsSkipsFit(t, e, depth); }
    case TArray(_, e) => if t.List? { ItemsSkipsFit(t, e, depth); }
    case TMap(_, e) =>
      if t.Map? {
        forall i | 0 <= i < |t.entries| ensures R.SkipsFit(t.entries[i].value, e, depth + 1) {
          FittingSkipsFit(t.entries[i].value, e, depth + 1);
        }
      }
    case TStruct(fs) =>
      if t.Map? {
        forall i | 0 <= i < |t.entries| ensures R.EntrySkipFits(t.entries[i], fs, depth + 1) {
          var k := D.FieldNamed(fs, t.entries[i].key);
          if k == |fs| { NestsIsFits(t.entries[i].value, depth + 1); }
          else { FittingSkipsFit(t.entries[i].value, fs[k].ty, depth + 1); }
        }
      }
    case _ =>
  }

  lemma {:induction false} ItemsSkipsFit(t: Tree, e: Type, depth: nat)
    requires t.List? && Fits(t, depth)
    ensures forall i :: 0 <= i < |t.items| ==> R.SkipsFit(t.items[i], e, depth + 1)
    decreases t, e, 0
  {
    forall i | 0 <= i < |t.items| ensures R.SkipsFit(t.items[i], e, depth + 1) {
      FittingSkipsFit(t.items[i], e, depth + 1);
    }
  }

  /** UnmarshalWire is FromWire then Decode, into any destination, of any bytes FromWire
      takes: unless a value under a key no field names nests past the limit, which the
      tape refuses and Decode never looks at. */
  lemma UnmarshalIsFromWireThenDecode(data: Text, ty: Type, dst: Data)
    requires HasType(dst, ty) && DistinctFields(ty) && FromWire(data).Some?
    ensures var t := FromWire(data).value;
      Unmarshalled(data, ty, dst) == if R.SkipsFit(t, ty, 0) then D.Decode(D.TreeReader, t, ty, dst, 0) else None
    ensures Fits(FromWire(data).value, 0) ==>
      Unmarshalled(data, ty, dst) == D.Decode(D.TreeReader, FromWire(data).value, ty, dst, 0)
  {
    var t := FromWire(data).value;
    R.TapeReadsAsTheTree(t, ty, dst, 0);
    if Fits(t, 0) { FittingSkipsFit(t, ty, 0); }
  }

  /** What FromWire refuses UnmarshalWire does too, but for a repeated key. */
  lemma UnmarshalRefusesToo(data: Text, ty: Type, dst: Data)
    requires HasType(dst, ty) && FromWire(data).None? && Unmarshalled(data, ty, dst).Some?
    ensures exists t :: WellFormed(t) && !DistinctKeys(t) && data == Enc(t)
  {
    var t := Parse(data).value;
    ReadIsEnc(data);
    assert data == Enc(t) + [] == Enc(t);
  }

  ghost function Nest(k: nat): Tree {
    if k == 0 then Null else List([Nest(k - 1)])
  }

  lemma {:induction false} NestIsTree(k: nat, depth: nat)
    ensures WellFormed(Nest(k)) && DistinctKeys(Nest(k))
    ensures Nests(Nest(k), depth) <==> k == 0 || depth + k <= MAX_DEPTH
    decreases k
  {
    if k > 0 {
      NestIsTree(k - 1, depth + 1);
      var items := Nest(k).items;
      assert items == [Nest(k - 1)] && items[0] == Nest(k - 1);
      assert Nests(Nest(k), depth) <==> depth < MAX_DEPTH && Nests(items[0], depth + 1);
    }
  }

  /** A document read as a struct with no fields, its one key's value nested past the
      limit: the tree reader takes it, the tape refuses it. */
  lemma DeepUnknownKeyParts()
    ensures var t, ty := Map([Entry([120], Nest(MAX_DEPTH))]), TStruct([]);
      && WellFormed(t) && DistinctKeys(t) && FromWire(Enc(t)) == Some(t)
      && D.Decode(D.TreeReader, t, ty, Record([]), 0) == Some(Record([]))
      && Unmarshalled(Enc(t), ty, Record([])) == None
  {
    var t, ty := Map([Entry([120], Nest(MAX_DEPTH))]), TStruct([]);
    NestIsTree(MAX_DEPTH, 1);
    AsciiIsUtf8([120]);
    SingleEntry(t.entries[0]);
    UnnamedIsPassedOver(t.entries);
    hide Nest, WellFormed, DistinctKeys, NoAbsent, Enc, R.SkipsFit, D.Decode;
    assert Enc(t) + [] == Enc(t);
    EncReads(t, []);
    UnmarshalIsFromWireThenDecode(Enc(t), ty, Record([]));
  }

  /** With no field to name it, an entry is left unread by one reader and passed over by
      the other. */
  lemma UnnamedIsPassedOver(entries: seq<Entry>)
    requires |entries| == 1
    ensures D.Decode(D.TreeReader, Map(entries), TStruct([]), Record([]), 0) == Some(Record([]))
    ensures R.SkipsFit(Map(entries), TStruct([]), 0) <==> Nests(entries[0].value, 1)
  {
    hide Nests;
    assert D.FieldNamed([], entries[0].key) == 0;
    assert R.EntrySkipFits(entries[0], [], 1) <==> Nests(entries[0].value, 1);
    assert D.DecodeFields(entries, [], [], 0, 1) == Some([]);
    assert D.Decode(D.TreeReader, Map(entries), TStruct([]), Record([]), 0)
        == D.DecodeStruct(D.TreeReader, Map(entries), [], [], 0);
  }

  lemma SingleEntry(e: Entry)
    requires WellFormedEntry(e) && DistinctKeys(e.value)
    ensures WellFormed(Map([e])) && DistinctKeys(Map([e]))
  {
  }

  /** A map holding one key twice: FromWire refuses it, UnmarshalWire keeps the last. */
  lemma RepeatedKeyIsKept()
    ensures var t := Map([Entry([], Bool(true)), Entry([], Bool(false))]);
      FromWire(Enc(t)) == None
      && Unmarshalled(Enc(t), TMap(KeyString, TBool), Nil) == Some(Dict(map[KText([]) := Flag(false)]))
  {
    var t := Map([Entry([], Bool(true)), Entry([], Bool(false))]);
    var es := t.entries;
    assert es[0].key == es[1].key;
    assert Enc(t) + [] == Enc(t);
    EncReads(t, []);
    var one := map[KText([]) := Flag(true)];
    assert es[1..] == [es[1]] && es[1..][1..] == [];
    assert D.Decode(D.TapeReader, es[0].value, TBool, Flag(false), 1) == Some(Flag(true));
    assert D.Decode(D.TapeReader, es[1].value, TBool, Flag(false), 1) == Some(Flag(false));
    R.DictStep(D.TapeReader, es, KeyString, TBool, map[], 1, Some(Flag(true)));
    R.DictStep(D.TapeReader, es[1..], KeyString, TBool, one, 1, Some(Flag(false)));
    assert one[KText([]) := Flag(false)] == map[KText([]) := Flag(false)];
    assert D.Decode(D.TapeReader, t, TMap(KeyString, TBool), Nil, 0)
        == D.DecodeMap(D.TapeReader, t, KeyString, TBool, Nil, 0);
  }

  // --- passing over against reading ---------------------------------------------------

  /** From any depth within the limit, passing over a node takes the bytes reading it as
      plain data takes, and stops where it stops. */
  lemma SkipIsPlain(s: Text, depth: nat)
    requires depth <= MAX_DEPTH
    ensures SkipStep(s, depth).Read? <==> PlainStep(s, depth).Read?
    ensures SkipStep(s, depth).Read? ==> SkipStep(s, depth).rest == PlainStep(s, depth).rest
  {
    if Parse(s).Read? {
      NestsIsFits(Parse(s).value, depth);
      P.PlainIsFits(Parse(s).value, depth);
    }
  }

  // --- writing -------------------------------------------------------------------

  /** MarshalWire. */
  method MarshalWire(x: Data) returns (r: Option<Text>)
    requires HasType(x, TAny)
    ensures r == match EncodeAny(x, 0) case None => None case Some(t) => Some(Enc(t))
  {
    var e := new Encoders.Encoder();
    var ok := e.WriteAny(x);
    if !ok {
      return None;
    }
    var sent := e.sent;
    assert sent == EventsOf(EncodeAny(x, 0).value);
    TapeWritesEnc(EncodeAny(x, 0).value);
    var s := new TapeSink();
    s.PutAll(sent);
    assert s.buf == TapeBytes(sent);
    return Some(s.buf);
  }

  /** NewValue's writeGo, a native call refusing at event refusedAt if at all: the tree
      built is the one described, on a refusal none is, and every scratch node is freed. */
  method NewValue(x: Data, refusedAt: nat, built: bool) returns (ok: bool, s: TreeSink)
    requires HasType(x, TAny) && InMemory(x)
    ensures s.Valid() && s.open == [] && s.freed == s.calloced
    ensures ok ==> EncodeAny(x, 0) == Some(s.held[0])
    ensures !ok ==> s.held[0] == Absent
    ensures match EncodeAny(x, 0)
            case None => !ok
            case Some(t) => NoAbsent(t) && (refusedAt >= |EventsOf(t)| ==> ok)
  {
    var e := new Encoders.Encoder();
    var encoded := e.WriteAny(x);
    if encoded {
      AnyIsSound(x, 0);
      assert e.sent == EventsOf(EncodeAny(x, 0).value);
      SinksAgree(EncodeAny(x, 0).value);
    }
    ok, s := WriteGo(e.sent, encoded, refusedAt, built);
  }

  // --- there and back ------------------------------------------------------------

  /** What MarshalWire writes of a concrete type UnmarshalWire reads back into a new
      variable: the same data, if and only if no pointer to a nil pointer was in it. */
  lemma MarshalledReadsBack(ty: Type, v: Data)
    requires HasType(v, ty) && RT.Concrete(ty) && DistinctFields(ty) && NamesInMemory(ty) && InMemory(v)
    requires EncodeAny(Boxed(ty, v), 0).Some?
    ensures var r := Unmarshalled(Enc(EncodeAny(Boxed(ty, v), 0).value), ty, Zero(ty));
      r.Some? && (RT.Same(ty, v, r.value) <==> RT.NoNilBehind(ty, v))
  {
    hide HasType, DistinctFields, NamesInMemory, InMemory, EncodeAny, Encode, Enc, D.Decode;
    hide RT.Concrete, RT.Same, RT.NoNilBehind, R.SkipsFit;
    BoxedIsItself(ty, v, 0);
    var t := Encode(ty, v, 0).value;
    EncodedIsSound(ty, v, 0);
    assert Enc(t) + [] == Enc(t);
    EncReads(t, []);
    UnmarshalIsFromWireThenDecode(Enc(t), ty, Zero(ty));
    RT.WrittenReadsBack(ty, v, 0);
  }

  lemma BoxedIsItself(ty: Type, v: Data, depth: nat)
    requires HasType(v, ty) && RT.Concrete(ty) && DistinctFields(ty)
    ensures HasType(Boxed(ty, v), TAny) && EncodeAny(Boxed(ty, v), depth) == Encode(ty, v, depth)
  {
  }

  /** The bytes of a tree in the form the encoder writes, read into an `any`, are written again
      as the same bytes. */
  lemma {:induction false} PlainBytesComeBack(t: Tree)
    requires WellFormed(t) && P.Regular(t) && P.HasRoom(t, 0)
    ensures var x := Unmarshalled(Enc(t), TAny, Nil);
      x.Some? && EncodeAny(x.value, 0) == Some(t)
  {
    P.PlainComesBack(t, 0);
    assert Enc(t) + [] == Enc(t);
    EncReads(t, []);
    assert !t.Absent?;
    assert D.Decode(D.TapeReader, t, TAny, Nil, 0) == D.Plain(t, 0);
  }

  /** Plain data written as bytes is read from them as it was. */
  lemma {:induction false} PlainDataComesBack(x: Data)
    requires HasType(x, TAny) && P.IsPlain(x) && InMemory(x) && EncodeAny(x, 0).Some?
    ensures Unmarshalled(Enc(EncodeAny(x, 0).value), TAny, Nil) == Some(x)
  {
    var t := EncodeAny(x, 0).value;
    AnyIsSound(x, 0);
    P.PlainReadsBack(x, 0);
    assert Enc(t) + [] == Enc(t);
    EncReads(t, []);
    assert !t.Absent?;
    assert D.Decode(D.TapeReader, t, TAny, Nil, 0) == D.Plain(t, 0);
  }
}
