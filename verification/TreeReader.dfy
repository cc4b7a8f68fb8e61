/** The tree reader: loops over lists, maps and the fields of a struct, against the rules
    it follows. */
module TreeReaders {
  import opened Texts
  import opened GoData
  import opened Decoding
  import W = Wire

  /** What comes of the rest, the part read so far before it. */
  ghost function Before<T>(out: seq<T>, rest: Option<seq<T>>): Option<seq<T>> {
    match rest
    case None => None
    case Some(vs) => Some(out + vs)
  }

  lemma OneMore<T>(out: seq<T>, v: T, rest: Option<seq<T>>)
    ensures Before(out, Before([v], rest)) == Before(out + [v], rest)
  {
    if rest.Some? { Regroup(out, [v], rest.value); }
  }

  lemma NoneBefore<T>(rest: Option<seq<T>>)
    ensures Before([], rest) == rest
  {
    if rest.Some? { assert [] + rest.value == rest.value; }
  }

  lemma PlainItemsStep(items: seq<W.Tree>, i: nat, depth: nat)
    requires i < |items|
    ensures PlainItems(items[i..], depth)
         == match Plain(items[i], depth)
            case None => None
            case Some(v) => Before([v], PlainItems(items[i + 1..], depth))
  {
    assert items[i..][0] == items[i] && items[i..][1..] == items[i + 1..];
  }

  /** A tree as plain Go data. */
  method PlainOf(t: W.Tree, depth: nat) returns (r: Option<Data>)
    ensures r == Plain(t, depth)
    decreases t, 1
  {
    if depth > W.MAX_DEPTH { return None; }
    match t {
      case Absent => r := Some(Nil);
      case Null => r := Some(Nil);
      case Bool(b) => r := Some(Boxed(TBool, Flag(b)));
      case Number(text) => r := Some(Boxed(TNumber, Chars(text)));
      case Str(text) => r := Some(Boxed(TString, Chars(text)));
      case Bytes(body) => r := Some(Boxed(TSlice(UINT8), Octets(body)));
      case List(items) =>
        var vs := PlainList(t, depth + 1);
        r := if vs.Some? then Some(Boxed(TSlice(TAny), Items(vs.value))) else None;
      case Map(entries) =>
        var m := PlainMap(t, depth + 1);
        r := if m.Some? then Some(Boxed(TMap(KeyString, TAny), Dict(m.value))) else None;
    }
  }

  method PlainList(t: W.Tree, depth: nat) returns (r: Option<seq<Data>>)
    requires t.List?
    ensures r == PlainItems(t.items, depth)
    decreases t, 0
  {
    var out := [];
    assert t.items[0..] == t.items;
    NoneBefore(PlainItems(t.items, depth));
    for i := 0 to |t.items|
      invariant PlainItems(t.items, depth) == Before(out, PlainItems(t.items[i..], depth))
    {
      PlainItemsStep(t.items, i, depth);
      var v := PlainOf(t.items[i], depth);
      if v.None? { return None; }
      OneMore(out, v.value, PlainItems(t.items[i + 1..], depth));
      out := out + [v.value];
    }
    assert out + [] == out;
    r := Some(out);
  }

  method PlainMap(t: W.Tree, depth: nat) returns (r: Option<map<Key, Data>>)
    requires t.Map?
    ensures r == PlainEntries(t.entries, map[], depth)
    decreases t, 0
  {
    var out: map<Key, Data> := map[];
    for i := 0 to |t.entries|
      invariant DictHasType(out, KeyString, TAny)
      invariant PlainEntries(t.entries, map[], depth) == PlainEntries(t.entries[i..], out, depth)
    {
      var e := t.entries[i];
      assert t.entries[i..][0] == e && t.entries[i..][1..] == t.entries[i + 1..];
      var v := PlainOf(e.value, depth);
      if v.None? { return None; }
      ghost var put := Put(out, KeyString, TAny, KText(e.key), v.value);
      out := out[KText(e.key) := v.value];
    }
    r := Some(out);
  }

  /** Reads t into a destination that holds dst. */
  method DecodeTree(t: W.Tree, ty: Type, dst: Data, depth: nat) returns (r: Option<Data>)
    requires HasType(dst, ty)
    ensures r == Decode(TreeReader, t, ty, dst, depth)
    decreases t, ty, 2
  {
    if t.Absent? { return Some(dst); }
    if depth > W.MAX_DEPTH { return None; }
    if IsScalar(ty) { return Scalar(t, ty); }
    match ty {
      case TPtr(e) =>
        if t.Null? { return Some(Nil); }
        var v := DecodeTree(t, e, if dst.Nil? then Zero(e) else dst.to, depth);
        r := if v.Some? then Some(Ptr(v.value)) else None;
      case TAny => r := PlainOf(t, depth);
      case TSlice(e) =>
        if t.Null? { return Some(Nil); }
        if !t.List? { return None; }
        var vs := DecodeList(t, e, seq(|t.items|, _ => Zero(e)), depth + 1);
        r := if vs.Some? then Some(Items(vs.value)) else None;
      case TArray(n, e) =>
        if !t.List? || |t.items| != n { return None; }
        var vs := DecodeList(t, e, dst.items, depth + 1);
        r := if vs.Some? then Some(Items(vs.value)) else None;
      case TMap(kt, e) =>
        if t.Null? { return Some(Nil); }
        if !t.Map? { return None; }
        var m := DecodeMapEntries(t, kt, e, if dst.Nil? then map[] else dst.dict, depth + 1);
        r := if m.Some? then Some(Dict(m.value)) else None;
      case TStruct(fs) =>
        if !t.Map? { return None; }
        var vs := DecodeRecord(t, fs, dst.fields, depth + 1);
        r := if vs.Some? then Some(Record(vs.value)) else None;
    }
  }

  lemma ItemsStep(items: seq<W.Tree>, e: Type, into: seq<Data>, i: nat, depth: nat)
    requires i < |items| == |into| && AllHaveType(into, e)
    ensures AllHaveType(into[i..], e) && AllHaveType(into[i + 1..], e)
    ensures DecodeItems(TreeReader, items[i..], e, into[i..], depth)
         == match Decode(TreeReader, items[i], e, into[i], depth)
            case None => None
            case Some(v) => Before([v], DecodeItems(TreeReader, items[i + 1..], e, into[i + 1..], depth))
  {
    assert items[i..][0] == items[i] && items[i..][1..] == items[i + 1..];
    assert into[i..][0] == into[i] && into[i..][1..] == into[i + 1..];
  }

  method DecodeList(t: W.Tree, e: Type, into: seq<Data>, depth: nat) returns (r: Option<seq<Data>>)
    requires t.List? && |into| == |t.items| && AllHaveType(into, e)
    ensures r == DecodeItems(TreeReader, t.items, e, into, depth)
    decreases t, e, 1
  {
    var out := [];
    assert into[0..] == into && t.items[0..] == t.items;
    NoneBefore(DecodeItems(TreeReader, t.items, e, into, depth));
    for i := 0 to |t.items|
      invariant AllHaveType(into[i..], e)
      invariant DecodeItems(TreeReader, t.items, e, into, depth)
             == Before(out, DecodeItems(TreeReader, t.items[i..], e, into[i..], depth))
    {
      ItemsStep(t.items, e, into, i, depth);
      var v := DecodeTree(t.items[i], e, into[i], depth);
      if v.None? { return None; }
      OneMore(out, v.value, DecodeItems(TreeReader, t.items[i + 1..], e, into[i + 1..], depth));
      out := out + [v.value];
    }
    assert out + [] == out;
    r := Some(out);
  }

  lemma DictStep(entries: seq<W.Entry>, kt: KeyType, e: Type, m: map<Key, Data>, i: nat, depth: nat)
    requires i < |entries| && DictHasType(m, kt, e)
    ensures DecodeDict(TreeReader, entries[i..], kt, e, m, depth)
         == match ReadKey(entries[i].key, kt)
            case None => None
            case Some(k) =>
              match Decode(TreeReader, entries[i].value, e, Zero(e), depth)
              case None => None
              case Some(v) => DecodeDict(TreeReader, entries[i + 1..], kt, e, Put(m, kt, e, k, v), depth)
  {
    assert entries[i..][0] == entries[i] && entries[i..][1..] == entries[i + 1..];
  }

  method DecodeMapEntries(t: W.Tree, kt: KeyType, e: Type, m: map<Key, Data>, depth: nat)
    returns (r: Option<map<Key, Data>>)
    requires t.Map? && DictHasType(m, kt, e)
    ensures r == DecodeDict(TreeReader, t.entries, kt, e, m, depth)
    decreases t, e, 1
  {
    var out := m;
    for i := 0 to |t.entries|
      invariant DictHasType(out, kt, e)
      invariant DecodeDict(TreeReader, t.entries, kt, e, m, depth)
             == DecodeDict(TreeReader, t.entries[i..], kt, e, out, depth)
    {
      DictStep(t.entries, kt, e, out, i, depth);
      var k := ReadKey(t.entries[i].key, kt);
      if k.None? { return None; }
      var v := DecodeTree(t.entries[i].value, e, Zero(e), depth);
      if v.None? { return None; }
      ghost var put := Put(out, kt, e, k.value, v.value);
      out := out[k.value := v.value];
    }
    r := Some(out);
  }

  /** The fields in declaration order, each looked up under its name. */
  method DecodeRecord(t: W.Tree, fs: seq<Field>, vs: seq<Data>, depth: nat) returns (r: Option<seq<Data>>)
    requires t.Map? && FieldsHaveType(vs, fs)
    ensures r == DecodeFields(t.entries, fs, vs, 0, depth)
    decreases t, fs, 1
  {
    var out := vs;
    for k := 0 to |fs|
      invariant FieldsHaveType(out, fs)
      invariant DecodeFields(t.entries, fs, vs, 0, depth) == DecodeFields(t.entries, fs, out, k, depth)
    {
      var i := FindKey(t.entries, fs[k].name);
      if i < |t.entries| {
        var v := DecodeTree(t.entries[i].value, fs[k].ty, out[k], depth);
        if v.None? { return None; }
        out := out[k := v.value];
      } else {
        assert out[k := out[k]] == out;
      }
    }
    r := Some(out);
  }
}
