/** The cursor over wire bytes that UnmarshalWire decodes with, no tree built: each
    read is held to what the tree its bytes parse to would have answered. */
module Tapes {
  import opened Texts
  import opened Bits
  import opened GoData
  import opened Wire
  import opened TapeSteps
  import D = Decoding
  import Numbers

  /** A read that answered r and left rest is the one step describes. */
  ghost predicate Took<T(!new)>(r: Option<T>, step: Step<T>, rest: Text) {
    match step
    case Refused => r.None?
    case Read(v, more) => r == Some(v) && rest == more
  }

  lemma TagOfTree(s: Text)
    requires Parse(s).Read?
    ensures match Parse(s).value
            case Absent => s[0] == ABSENT
            case Null => s[0] == NULL
            case Bool(_) => s[0] == BOOL
            case Number(_) => s[0] == NUMBER
            case Str(_) => s[0] == STRING
            case Bytes(_) => s[0] == BYTES
            case List(_) => s[0] == LIST
            case Map(_) => s[0] == MAP
  {
  }

  class Tape {
    const data: Text
    var at: nat

    ghost predicate Valid()
      reads this
    {
      at <= |data|
    }

    ghost function Rest(): Text
      requires Valid()
      reads this
    {
      data[at..]
    }

    constructor (data: Text)
      ensures Valid() && this.data == data && at == 0 && Rest() == data
    {
      this.data := data;
      at := 0;
    }

    method TakeByte() returns (r: Option<Byte>)
      requires Valid()
      modifies this
      ensures Valid()
      ensures Took(r, if old(Rest()) == [] then Refused else Read(old(Rest())[0], old(Rest())[1..]), Rest())
    {
      if at >= |data| {
        return None;
      }
      r := Some(data[at]);
      at := at + 1;
    }

    method TakeBoolean() returns (r: Option<bool>)
      requires Valid()
      modifies this
      ensures Valid()
      ensures var s := old(Rest());
        Took(r, if s == [] || s[0] > 1 then Refused else Read(s[0] == 1, s[1..]), Rest())
    {
      var b := TakeByte();
      if b.None? || b.value > 1 {
        return None;
      }
      return Some(b.value == 1);
    }

    /** The loop over a count's bytes, in 64-bit arithmetic. */
    method TakeCount() returns (r: Option<nat>)
      requires Valid()
      modifies this
      ensures Valid()
      ensures Took(r, Count(old(Rest())), Rest())
    {
      hide BitOr, ShiftLeft, Pow2, UnLeb, Raised;
      var n: nat, shift: nat := 0, 0;
      NothingRaised(UnLeb(Rest(), true));
      while true
        invariant Valid() && n < Pow2(shift) && shift % 7 == 0 && shift <= 63
        invariant UnLeb(old(Rest()), true) == Raised(UnLeb(Rest(), shift == 0), n, shift)
        decreases |data| - at
      {
        ghost var s := Rest();
        var b := TakeByte();
        if b.None? {
          NothingCounted(shift == 0, n, shift);
          return None;
        }
        RaisesByOne(s, n, shift);
        if (shift == 63 && b.value > 1) || shift > 63 {
          TooWide(s, n);
          return None;
        }
        OrAdds(n, b.value % 0x80, shift);
        n := BitOr(n, ShiftLeft(b.value % 0x80, shift));
        if b.value < 0x80 {
          if b.value == 0 && shift > 0 {
            return None;
          }
          if n > MAX_INT {
            return None;
          }
          return Some(n);
        }
        shift := shift + 7;
      }
    }

    method TakeBody(n: nat) returns (r: Option<Text>)
      requires Valid()
      modifies this
      ensures Valid()
      ensures Took(r, if n <= |old(Rest())| then Read(old(Rest())[..n], old(Rest())[n..]) else Refused, Rest())
    {
      if n > |data| - at {
        return None;
      }
      assert data[at..][..n] == data[at..at + n] && data[at..][n..] == data[at + n..];
      r := Some(data[at..at + n]);
      at := at + n;
    }

    method TakeText() returns (r: Option<Text>)
      requires Valid()
      modifies this
      ensures Valid()
      ensures Took(r, UnText(old(Rest())), Rest())
    {
      var n := TakeCount();
      if n.None? {
        return None;
      }
      r := TakeBody(n.value);
      if r.Some? && !ValidUtf8(r.value) {
        return None;
      }
    }

    /** What follows a NUMBER, STRING or BYTES tag: a sized body, checked against the JSON
        grammar or for UTF-8 as the tag says. */
    method TakeScalar(tag: Byte) returns (r: Option<Text>)
      requires Valid() && tag in [NUMBER, STRING, BYTES]
      modifies this
      ensures Valid()
      ensures Took(r, match ParseLeaf(tag, old(Rest()))
                      case Refused => Refused
                      case Read(t, rest) => Read(if t.Bytes? then t.body else t.text, rest), Rest())
    {
      if tag == STRING {
        r := TakeText();
        return;
      }
      var n := TakeCount();
      if n.None? {
        return None;
      }
      r := TakeBody(n.value);
      if r.None? || tag == BYTES {
        return;
      }
      var ok := Numbers.ScanNumber(r.value);
      if !ok {
        return None;
      }
    }

    /** How many items follow. A count past the bytes left is refused early, and none that
        parsing would take is refused by it: an item is a byte at least. */
    method TakeItems() returns (r: Option<nat>)
      requires Valid()
      modifies this
      ensures Valid()
      ensures Took(r, match Count(old(Rest()))
                      case Refused => Refused
                      case Read(n, rest) => if n > |rest| then Refused else Read(n, rest), Rest())
    {
      r := TakeCount();
      if r.Some? && r.value > |data| - at {
        return None;
      }
    }

    // --- passing over a node -----------------------------------------------------

    method Skip(tag: Byte, depth: nat) returns (r: Option<()>)
      requires Valid()
      modifies this
      ensures Valid()
      ensures Took(r, SkipStep([tag] + old(Rest()), depth), Rest())
      decreases |data| - at, 0
    {
      ghost var s := [tag] + Rest();
      assert s[1..] == Rest();
      if tag == ABSENT || tag == NULL {
        return Some(());
      }
      if tag == BOOL {
        var b := TakeBoolean();
        return if b.Some? then Some(()) else None;
      }
      if tag in [NUMBER, STRING, BYTES] {
        var text := TakeScalar(tag);
        return if text.Some? then Some(()) else None;
      }
      if tag == LIST || tag == MAP {
        ghost var counted := Count(Rest());
        var n := TakeItems();
        ContainerSkips(s, depth);
        if n.None? || (n.value > 0 && depth >= MAX_DEPTH) {
          return None;
        }
        r := SkipAll(n.value, tag == MAP, depth + 1);
        return;
      }
      return None;
    }

    method SkipAll(n: nat, keyed: bool, depth: nat) returns (r: Option<()>)
      requires Valid()
      modifies this
      ensures Valid()
      ensures Took(r, if keyed then SkipEntriesStep(old(Rest()), n, depth) else SkipItemsStep(old(Rest()), n, depth),
                   Rest())
      decreases |data| - at, 1
    {
      hide SkipStep, SkipItemsStep, SkipEntriesStep, UnText;
      ghost var all := if keyed then SkipEntriesStep(Rest(), n, depth) else SkipItemsStep(Rest(), n, depth);
      for i := 0 to n
        invariant Valid() && old(at) <= at
        invariant all == if keyed then SkipEntriesStep(Rest(), n - i, depth) else SkipItemsStep(Rest(), n - i, depth)
      {
        if keyed {
          SkipEntriesSteps(Rest(), n - i, depth);
          var key := TakeText();
          if key.None? {
            return None;
          }
        } else {
          SkipItemsSteps(Rest(), n - i, depth);
        }
        ghost var s := Rest();
        var child := TakeByte();
        if child.None? {
          SkipNothing(depth);
          return None;
        }
        assert s == [child.value] + Rest();
        var one := Skip(child.value, depth);
        if one.None? {
          return None;
        }
      }
      SkipEnds(Rest(), depth);
      return Some(());
    }

    // --- plain data ----------------------------------------------------------------

    method TakePlain(tag: Byte, depth: nat) returns (r: Option<Data>)
      requires Valid()
      modifies this
      ensures Valid()
      ensures Took(r, PlainStep([tag] + old(Rest()), depth), Rest())
      decreases |data| - at, 0
    {
      hide PlainStep, PlainListStep, PlainDictStep, HasType, UnSized, UnText, Count;
      ghost var s := [tag] + Rest();
      assert s[1..] == Rest();
      PlainReadsLeaf(s, depth);
      if depth > MAX_DEPTH {
        return None;
      }
      if tag == ABSENT || tag == NULL {
        return Some(Nil);
      }
      if tag == BOOL {
        var b := TakeBoolean();
        return if b.Some? then Some(Boxed(TBool, Flag(b.value))) else None;
      }
      if tag == NUMBER || tag == STRING {
        var text := TakeScalar(tag);
        return if text.Some? then Some(Boxed(if tag == NUMBER then TNumber else TString, Chars(text.value))) else None;
      }
      if tag == BYTES {
        var body := TakeScalar(tag);
        return if body.Some? then Some(Boxed(TSlice(UINT8), Octets(body.value))) else None;
      }
      if tag == LIST {
        PlainReadsItems(s, depth);
        var n := TakeItems();
        if n.None? {
          return None;
        }
        var vs := TakePlainList(n.value, depth + 1);
        return if vs.Some? then Some(Boxed(TSlice(TAny), Items(vs.value))) else None;
      }
      if tag == MAP {
        PlainReadsItems(s, depth);
        var n := TakeItems();
        if n.None? {
          return None;
        }
        var m := TakePlainDict(n.value, depth + 1);
        return if m.Some? then Some(Boxed(TMap(KeyString, TAny), Dict(m.value))) else None;
      }
      return None;
    }

    method TakePlainList(n: nat, depth: nat) returns (r: Option<seq<Data>>)
      requires Valid()
      modifies this
      ensures Valid()
      ensures Took(r, PlainListStep(old(Rest()), n, depth), Rest())
      decreases |data| - at, 1
    {
      hide HasType, PlainListStep, PlainStep;
      ghost var all := PlainListStep(Rest(), n, depth);
      var out := [];
      for i := 0 to n
        invariant Valid() && old(at) <= at
        invariant all == Prefixed(out, PlainListStep(Rest(), n - i, depth))
      {
        PlainListSteps(Rest(), n - i, depth);
        ghost var s := Rest();
        var child := TakeByte();
        if child.None? {
          PlainNothing(depth);
          return None;
        }
        assert s == [child.value] + Rest();
        var v := TakePlain(child.value, depth);
        if v.None? {
          return None;
        }
        PrefixedTwice(out, [v.value], PlainListStep(Rest(), n - i - 1, depth));
        out := out + [v.value];
      }
      PlainListEnds(Rest(), depth);
      return Some(out);
    }

    method TakePlainDict(n: nat, depth: nat) returns (r: Option<map<Key, Data>>)
      requires Valid()
      modifies this
      ensures Valid()
      ensures Took(r, PlainDictStep(old(Rest()), n, map[], depth), Rest())
      decreases |data| - at, 1
    {
      hide HasType, D.DictHasType, PlainDictStep, PlainStep;
      assert D.DictHasType(map[], KeyString, TAny) by { NoEntries(); }
      ghost var all := PlainDictStep(Rest(), n, map[], depth);
      var out := map[];
      for i := 0 to n
        invariant Valid() && old(at) <= at && D.DictHasType(out, KeyString, TAny)
        invariant all == PlainDictStep(Rest(), n - i, out, depth)
      {
        ghost var before := Rest();
        PlainDictSteps(before, n - i, out, depth);
        var key := TakeText();
        if key.None? {
          return None;
        }
        var child := TakeByte();
        if child.None? {
          PlainNothing(depth);
          return None;
        }
        assert [child.value] + Rest() == UnText(before).rest;
        var v := TakePlain(child.value, depth);
        if v.None? {
          return None;
        }
        ghost var put := D.Put(out, KeyString, TAny, KText(key.value), v.value);
        out := out[KText(key.value) := v.value];
      }
      PlainDictEnds(Rest(), out, depth);
      return Some(out);
    }

    // --- typed data ----------------------------------------------------------------

    /** The next node read into dst: what the destination holds afterwards. */
    method Decode(ty: Type, dst: Data, depth: nat) returns (r: Option<Data>)
      requires Valid() && HasType(dst, ty)
      modifies this
      ensures Valid()
      ensures Took(r, DecodeStep(old(Rest()), ty, dst, depth), Rest())
      decreases |data| - at, ty, 0
    {
      hide HasType, DecodeStep, PlainStep, ListStep, DictStep, StructStep, D.DictHasType, Count;
      ghost var s := Rest();
      NodeReads(s, ty, dst, depth);
      var head := TakeByte();
      if head.None? || head.value > MAP {
        return None;
      }
      var tag := head.value;
      assert s == [tag] + Rest();
      if tag == ABSENT {
        return Some(dst);
      }
      if depth > MAX_DEPTH {
        return None;
      }
      match ty
      case TPtr(e) =>
        PtrReads(s, e, dst, depth);
        if tag == NULL {
          return Some(Nil);
        }
        at := at - 1;
        var to := Decode(e, if dst.Nil? then Zero(e) else dst.to, depth);
        return if to.Some? then Some(Ptr(to.value)) else None;
      case TAny =>
        AnyReads(s, dst, depth);
        r := TakePlain(tag, depth);
      case TSlice(e) =>
        if e == UINT8 {
          r := DecodeScalar(ty, tag, s, dst, depth);
          return;
        }
        ListReads(s, ty, dst, depth);
        if tag == NULL {
          return Some(Nil);
        }
        if tag != LIST {
          return None;
        }
        var n := TakeItems();
        if n.None? {
          return None;
        }
        var vs := TakeList(n.value, e, seq(n.value, _ => Zero(e)), depth + 1);
        return if vs.Some? then Some(Items(vs.value)) else None;
      case TArray(length, e) =>
        ListReads(s, ty, dst, depth);
        if tag != LIST {
          return None;
        }
        var n := TakeItems();
        if n.None? || n.value != length {
          return None;
        }
        var vs := TakeList(n.value, e, dst.items, depth + 1);
        return if vs.Some? then Some(Items(vs.value)) else None;
      case TMap(kt, e) =>
        MapReads(s, ty, dst, depth);
        if tag == NULL {
          return Some(Nil);
        }
        if tag != MAP {
          return None;
        }
        var n := TakeItems();
        if n.None? {
          return None;
        }
        var m := TakeDict(n.value, kt, e, if dst.Nil? then map[] else dst.dict, depth + 1);
        return if m.Some? then Some(Dict(m.value)) else None;
      case TStruct(fs) =>
        StructReads(s, ty, dst, depth);
        if tag != MAP {
          return None;
        }
        var n := TakeItems();
        if n.None? {
          return None;
        }
        var vs := TakeStruct(n.value, fs, dst.fields, depth + 1);
        return if vs.Some? then Some(Record(vs.value)) else None;
      case _ =>
        r := DecodeScalar(ty, tag, s, dst, depth);
    }

    /** A leaf whose tag was just read at the head of s. */
    method DecodeScalar(ty: Type, tag: Byte, ghost s: Text, dst: Data, depth: nat) returns (r: Option<Data>)
      requires Valid() && HasType(dst, ty) && s == [tag] + Rest()
      requires 0 < tag <= MAP && depth <= MAX_DEPTH
      requires D.IsScalar(ty)
      modifies this
      ensures Valid()
      ensures Took(r, DecodeStep(s, ty, dst, depth), Rest())
    {
      assert s[1..] == Rest();
      if Parse(s).Read? { TagOfTree(s); }
      if ty.TBool? {
        if tag != BOOL {
          return None;
        }
        var b := TakeBoolean();
        return if b.Some? then Some(Flag(b.value)) else None;
      }
      if tag != (if ty.TSlice? then BYTES else if ty.TString? then STRING else NUMBER) {
        return None;
      }
      var body := TakeScalar(tag);
      if body.None? {
        return None;
      }
      if ty.TInt? {
        return D.ReadInt(body.value, ty.w);
      }
      return Some(if ty.TSlice? then Octets(body.value) else Chars(body.value));
    }

    method TakeList(n: nat, e: Type, into: seq<Data>, depth: nat) returns (r: Option<seq<Data>>)
      requires Valid() && |into| == n && AllHaveType(into, e)
      modifies this
      ensures Valid()
      ensures Took(r, ListStep(old(Rest()), n, e, into, depth), Rest())
      decreases |data| - at, e, 1
    {
      hide HasType, ListStep, DecodeStep;
      ghost var all := ListStep(Rest(), n, e, into, depth);
      assert into[0..] == into;
      var out := [];
      for i := 0 to n
        invariant Valid() && old(at) <= at
        invariant AllHaveType(into[i..], e)
        invariant all == Prefixed(out, ListStep(Rest(), n - i, e, into[i..], depth))
      {
        assert into[i..][0] == into[i] && into[i..][1..] == into[i + 1..];
        ListSteps(Rest(), n - i, e, into[i..], depth);
        var v := Decode(e, into[i], depth);
        if v.None? {
          return None;
        }
        PrefixedTwice(out, [v.value], ListStep(Rest(), n - i - 1, e, into[i + 1..], depth));
        out := out + [v.value];
      }
      ListEnds(Rest(), e, into[n..], depth);
      return Some(out);
    }

    method TakeDict(n: nat, kt: KeyType, e: Type, m: map<Key, Data>, depth: nat) returns (r: Option<map<Key, Data>>)
      requires Valid() && D.DictHasType(m, kt, e)
      modifies this
      ensures Valid()
      ensures Took(r, DictStep(old(Rest()), n, kt, e, m, depth), Rest())
      decreases |data| - at, e, 1
    {
      hide HasType, D.DictHasType, D.ReadKey, DictStep, DecodeStep;
      ghost var all := DictStep(Rest(), n, kt, e, m, depth);
      var out := m;
      for i := 0 to n
        invariant Valid() && old(at) <= at && D.DictHasType(out, kt, e)
        invariant all == DictStep(Rest(), n - i, kt, e, out, depth)
      {
        DictSteps(Rest(), n - i, kt, e, out, depth);
        var text := TakeText();
        if text.None? {
          return None;
        }
        var k := D.ReadKey(text.value, kt);
        if k.None? {
          return None;
        }
        var v := Decode(e, Zero(e), depth);
        if v.None? {
          return None;
        }
        ghost var put := D.Put(out, kt, e, k.value, v.value);
        out := out[k.value := v.value];
      }
      DictEnds(Rest(), kt, e, out, depth);
      return Some(out);
    }

    method TakeStruct(n: nat, fs: seq<Field>, vs: seq<Data>, depth: nat) returns (r: Option<seq<Data>>)
      requires Valid() && FieldsHaveType(vs, fs)
      modifies this
      ensures Valid()
      ensures Took(r, StructStep(old(Rest()), n, fs, vs, depth), Rest())
      decreases |data| - at, fs, 1
    {
      hide HasType, StructStep, DecodeStep, SkipStep;
      ghost var all := StructStep(Rest(), n, fs, vs, depth);
      var out := vs;
      for i := 0 to n
        invariant Valid() && old(at) <= at && FieldsHaveType(out, fs)
        invariant all == StructStep(Rest(), n - i, fs, out, depth)
      {
        ghost var before := Rest();
        StructSteps(before, n - i, fs, out, depth);
        var key := TakeText();
        if key.None? {
          return None;
        }
        var k := D.FieldNamed(fs, key.value);
        if k == |fs| {
          var child := TakeByte();
          if child.None? {
            SkipNothing(depth);
            return None;
          }
          assert [child.value] + Rest() == UnText(before).rest;
          var passed := Skip(child.value, depth);
          if passed.None? {
            return None;
          }
        } else {
          var v := Decode(fs[k].ty, out[k], depth);
          if v.None? {
            return None;
          }
          out := out[k := v.value];
        }
      }
      StructEnds(Rest(), fs, out, depth);
      return Some(out);
    }
  }

  /** UnmarshalWire: one value, and nothing after it. */
  method UnmarshalWire(data: Text, ty: Type, dst: Data) returns (r: Option<Data>)
    requires HasType(dst, ty)
    ensures r == Unmarshalled(data, ty, dst)
  {
    var t := new Tape(data);
    r := t.Decode(ty, dst, 0);
    if r.Some? && t.at != |data| {
      return None;
    }
  }

  ghost function Unmarshalled(data: Text, ty: Type, dst: Data): Option<Data>
    requires HasType(dst, ty)
  {
    match Parse(data)
    case Refused => None
    case Read(t, rest) => if rest == [] then D.Decode(D.TapeReader, t, ty, dst, 0) else None
  }

  // --- containers -----------------------------------------------------------------

  /** A container's items, once counted, are read by step; wrap makes them one value. */
  ghost function Wrapped<T>(items: Step<T>, wrap: T -> Data): Step<Data> {
    match items case Refused => Refused case Read(vs, rest) => Read(wrap(vs), rest)
  }

  lemma PlainReadsItems(s: Text, depth: nat)
    requires s != [] && s[0] in [LIST, MAP] && depth <= MAX_DEPTH
    ensures PlainStep(s, depth)
         == match Count(s[1..])
            case Refused => Refused
            case Read(n, rest) =>
              if n > |rest| then Refused
              else if s[0] == LIST
              then Wrapped(PlainListStep(rest, n, depth + 1), vs => Boxed(TSlice(TAny), Items(vs)))
              else Wrapped(PlainDictStep(rest, n, map[], depth + 1), m => Boxed(TMap(KeyString, TAny), Dict(m)))
  {
    hide HasType;
  }

  /** A leaf as plain data, read by its tag and body at any depth within the limit. */
  lemma PlainReadsLeaf(s: Text, depth: nat)
    requires s != []
    ensures depth > MAX_DEPTH || s[0] > MAP ==> PlainStep(s, depth).Refused?
    ensures depth <= MAX_DEPTH && s[0] <= MAP && IsLeafTag(s[0]) ==>
      var leaf := ParseLeaf(s[0], s[1..]);
      if leaf.Refused? then PlainStep(s, depth).Refused?
      else D.Plain(leaf.value, depth).Some? && PlainStep(s, depth) == Read(D.Plain(leaf.value, depth).value, leaf.rest)
  {
    hide HasType;
  }

  /** What a read answers before the type says how. */
  lemma NodeReads(s: Text, ty: Type, dst: Data, depth: nat)
    requires HasType(dst, ty)
    ensures s == [] || s[0] > MAP ==> DecodeStep(s, ty, dst, depth).Refused?
    ensures s != [] && s[0] == ABSENT ==> DecodeStep(s, ty, dst, depth) == Read(dst, s[1..])
    ensures s != [] && s[0] != ABSENT && depth > MAX_DEPTH ==> DecodeStep(s, ty, dst, depth).Refused?
    ensures ty.TPtr? ==> dst.Nil? || (dst.Ptr? && HasType(dst.to, ty.elem))
    ensures ty.TArray? ==> dst.Items? && |dst.items| == ty.length && AllHaveType(dst.items, ty.elem)
    ensures ty.TMap? ==> dst.Nil? || (dst.Dict? && D.DictHasType(dst.dict, ty.key, ty.elem))
    ensures ty.TStruct? ==> dst.Record? && FieldsHaveType(dst.fields, ty.fields)
    ensures ty.TMap? ==> D.DictHasType(map[], ty.key, ty.elem)
  {
    if Parse(s).Read? { TagOfTree(s); }
  }

  /** A node past the checks every type shares. */
  ghost predicate Present(s: Text, depth: nat) {
    s != [] && s[0] != ABSENT && depth <= MAX_DEPTH
  }

  lemma PtrReads(s: Text, e: Type, dst: Data, depth: nat)
    requires Present(s, depth) && HasType(dst, TPtr(e))
    ensures DecodeStep(s, TPtr(e), dst, depth)
         == if s[0] == NULL then Read(Nil, s[1..])
            else Wrapped(DecodeStep(s, e, if dst.Nil? then Zero(e) else dst.to, depth), v => Ptr(v))
  {
    if Parse(s).Read? {
      TagOfTree(s);
      assert D.Decode(D.TapeReader, Parse(s).value, TPtr(e), dst, depth)
          == D.DecodePtr(D.TapeReader, Parse(s).value, e, dst, depth);
    }
  }

  lemma AnyReads(s: Text, dst: Data, depth: nat)
    requires Present(s, depth) && HasType(dst, TAny)
    ensures DecodeStep(s, TAny, dst, depth) == PlainStep(s, depth)
  {
    if Parse(s).Read? { TagOfTree(s); }
  }

  lemma ListReads(s: Text, ty: Type, dst: Data, depth: nat)
    requires Present(s, depth) && HasType(dst, ty)
    requires (ty.TSlice? && ty.elem != UINT8) || ty.TArray?
    ensures DecodeStep(s, ty, dst, depth)
         == if s[0] == NULL && ty.TSlice? then Read(Nil, s[1..])
            else if s[0] != LIST then Refused
            else match Count(s[1..])
            case Refused => Refused
            case Read(n, rest) =>
              if n > |rest| || (ty.TArray? && n != ty.length) then Refused
              else
                var into := if ty.TArray? then dst.items else seq(n, _ => Zero(ty.elem));
                Wrapped(ListStep(rest, n, ty.elem, into, depth + 1), vs => Items(vs))
  {
    if Parse(s).Read? {
      TagOfTree(s);
      var t := Parse(s).value;
      if ty.TSlice? {
        assert D.Decode(D.TapeReader, t, ty, dst, depth) == D.DecodeSlice(D.TapeReader, t, ty.elem, depth);
      }
    }
  }

  lemma MapReads(s: Text, ty: Type, dst: Data, depth: nat)
    requires Present(s, depth) && HasType(dst, ty) && ty.TMap?
    ensures DecodeStep(s, ty, dst, depth)
         == if s[0] == NULL then Read(Nil, s[1..])
            else if s[0] != MAP then Refused
            else match Count(s[1..])
            case Refused => Refused
            case Read(n, rest) =>
              if n > |rest| then Refused
              else Wrapped(DictStep(rest, n, ty.key, ty.elem, if dst.Nil? then map[]
                else dst.dict, depth + 1), m => Dict(m))
  {
    if Parse(s).Read? {
      TagOfTree(s);
      assert D.Decode(D.TapeReader, Parse(s).value, ty, dst, depth)
          == D.DecodeMap(D.TapeReader, Parse(s).value, ty.key, ty.elem, dst, depth);
    }
  }

  lemma StructReads(s: Text, ty: Type, dst: Data, depth: nat)
    requires Present(s, depth) && HasType(dst, ty) && ty.TStruct?
    ensures DecodeStep(s, ty, dst, depth)
         == if s[0] != MAP then Refused
            else match Count(s[1..])
            case Refused => Refused
            case Read(n, rest) =>
              if n > |rest| then Refused
              else Wrapped(StructStep(rest, n, ty.fields, dst.fields, depth + 1), vs => Record(vs))
  {
    if Parse(s).Read? {
      TagOfTree(s);
      assert D.Decode(D.TapeReader, Parse(s).value, ty, dst, depth)
          == D.DecodeStruct(D.TapeReader, Parse(s).value, ty.fields, dst.fields, depth);
    }
  }

  lemma NoEntries()
    ensures D.DictHasType(map[], KeyString, TAny)
  {
  }

  // --- counting -----------------------------------------------------------------

  /** What UnLeb answers for bytes whose low bits, shift of them, came to n. */
  ghost function Raised(high: Step<nat>, n: nat, shift: nat): Step<nat> {
    match high
    case Refused => Refused
    case Read(h, rest) => Read(n + h * Pow2(shift), rest)
  }

  lemma NothingRaised(high: Step<nat>)
    ensures Raised(high, 0, 0) == high
  {
  }

  lemma NothingCounted(first: bool, n: nat, shift: nat)
    ensures Raised(UnLeb([], first), n, shift).Refused?
  {
  }

  /** The or of the next seven bits is their sum, and overflows nothing. */
  lemma OrAdds(n: nat, low: nat, shift: nat)
    requires n < Pow2(shift) && low < 0x80 && shift <= 63 && (shift == 63 ==> low <= 1) && shift % 7 == 0
    ensures BitOr(n, ShiftLeft(low, shift)) == n + low * Pow2(shift) < Pow2(shift + 7)
  {
    hide Pow2, BitOr;
    var p := Pow2(shift);
    OrIsSum(n, low, shift);
    Pow2Values();
    Pow2Adds(shift, 7);
    if shift < 63 { Pow2Grows(shift, 56); }
    LowBits(n, low, p, if shift < 63 then 0x7F else 1);
  }

  lemma LowBits(n: nat, low: nat, p: nat, most: nat)
    requires n < p && low <= most <= 0x7F
    ensures low * p <= most * p && n + low * p < 0x80 * p
  {
  }

  lemma TooWide(s: Text, n: nat)
    requires s != [] && s[0] > 1
    ensures var r := Raised(UnLeb(s, false), n, 63); r.Read? ==> r.value > MAX_INT
  {
    Pow2Values();
    if UnLeb(s, false).Read? {
      ReadIsLeb(s, false);
    }
  }

  /** One byte more read: its seven bits join n. */
  lemma RaisesByOne(s: Text, n: nat, shift: nat)
    requires s != []
    ensures Raised(UnLeb(s, shift == 0), n, shift)
         == if s[0] >= 0x80 then Raised(UnLeb(s[1..], false), n + (s[0] % 0x80) * Pow2(shift), shift + 7)
            else if s[0] == 0 && shift > 0 then Refused
            else Read(n + (s[0] % 0x80) * Pow2(shift), s[1..])
  {
    hide Pow2;
    if s[0] >= 0x80 && UnLeb(s[1..], false).Read? {
      Pow2Adds(shift, 7);
      Pow2Values();
      assert s[0] % 0x80 == s[0] - 0x80;
      Distributes(s[0] % 0x80, UnLeb(s[1..], false).value, Pow2(shift));
    }
  }

  lemma PrefixedTwice<T>(a: seq<T>, b: seq<T>, tail: Step<seq<T>>)
    ensures Prefixed(a, Prefixed(b, tail)) == Prefixed(a + b, tail)
  {
    if tail.Read? {
      assert a + (b + tail.value) == (a + b) + tail.value;
    }
  }

  lemma Distributes(low: nat, h: nat, p: nat)
    ensures (low + 0x80 * h) * p == low * p + h * (p * 0x80)
  {
  }

  lemma ContainerSkips(s: Text, depth: nat)
    requires s != [] && s[0] in [LIST, MAP]
    ensures SkipStep(s, depth)
         == match Count(s[1..])
            case Refused => Refused
            case Read(n, rest) =>
              if n > |rest| || (n > 0 && depth >= MAX_DEPTH) then Refused
              else if s[0] == MAP then SkipEntriesStep(rest, n, depth + 1)
              else SkipItemsStep(rest, n, depth + 1)
  {
  }
}
