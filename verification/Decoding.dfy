/** Reading a tree into typed Go data: the rules of the tree reader, and of the
    tape reader where it differs. */
module Decoding {
  import opened Texts
  import opened GoData
  import W = Wire

  /** The two readers part over a struct alone: the tree reader looks each field up,
      in declaration order; the tape reader takes the entries as they come, and
      passes over those no field names within the nesting limit. */
  datatype Reader = TreeReader | TapeReader

  function ReadKey(text: Text, t: KeyType): (r: Option<Key>)
    ensures r.Some? ==> KeyHasType(r.value, t)
  {
    match t
    case KeyString => Some(KText(text))
    case KeyInt(w) =>
      var parsed := if w.Signed? then ParseInt(text, Lo(w), Hi(w)) else ParseUint(text, Hi(w));
      if parsed.Some? && FormatInt(parsed.value) == text then Some(KNum(parsed.value)) else None
    case KeyBool =>
      if text == TRUE then Some(KFlag(true)) else if text == FALSE then Some(KFlag(false)) else None
  }

  const TRUE: Text := [116, 114, 117, 101]
  const FALSE: Text := [102, 97, 108, 115, 101]

  function ReadInt(text: Text, w: IntType): Option<Data> {
    match if w.Signed? then ParseInt(text, Lo(w), Hi(w)) else ParseUint(text, Hi(w))
    case None => None
    case Some(i) => Some(Int(i))
  }

  /** The first entry under key, |entries| when there is none. */
  function FindKey(entries: seq<W.Entry>, key: Text): (i: nat)
    ensures i <= |entries|
    ensures i < |entries| ==> entries[i].key == key
    ensures forall j :: 0 <= j < i ==> entries[j].key != key
  {
    if entries == [] || entries[0].key == key then 0 else 1 + FindKey(entries[1..], key)
  }

  /** The field of that name, |fs| when there is none. */
  function FieldNamed(fs: seq<Field>, name: Text): (i: nat)
    ensures i <= |fs|
    ensures i < |fs| ==> fs[i].name == name
    ensures forall j :: 0 <= j < i ==> fs[j].name != name
  {
    if fs == [] || fs[0].name == name then 0 else 1 + FieldNamed(fs[1..], name)
  }

  // --- plain data ------------------------------------------------------------------

  /** The tree as plain Go data, what an `any` is read as. */
  ghost function Plain(t: W.Tree, depth: nat): (r: Option<Data>)
    ensures r.Some? ==> HasType(r.value, TAny)
    decreases t
  {
    if depth > W.MAX_DEPTH then None
    else match t
      case Absent => Some(Nil)
      case Null => Some(Nil)
      case Bool(b) => Some(Boxed(TBool, Flag(b)))
      case Number(text) => Some(Boxed(TNumber, Chars(text)))
      case Str(text) => Some(Boxed(TString, Chars(text)))
      case Bytes(body) => Some(Boxed(TSlice(UINT8), Octets(body)))
      case List(items) =>
        (match PlainItems(items, depth + 1)
         case None => None
         case Some(vs) => Some(Boxed(TSlice(TAny), Items(vs))))
      case Map(entries) =>
        match PlainEntries(entries, map[], depth + 1)
        case None => None
        case Some(m) => Some(Boxed(TMap(KeyString, TAny), Dict(m)))
  }

  ghost function PlainItems(items: seq<W.Tree>, depth: nat): (r: Option<seq<Data>>)
    ensures r.Some? ==> AllHaveType(r.value, TAny)
    decreases items
  {
    if items == [] then Some([])
    else match Plain(items[0], depth)
      case None => None
      case Some(v) =>
        match PlainItems(items[1..], depth)
        case None => None
        case Some(vs) => Some([v] + vs)
  }

  ghost function PlainEntries(entries: seq<W.Entry>, m: map<Key, Data>, depth: nat): (r: Option<map<Key, Data>>)
    requires DictHasType(m, KeyString, TAny)
    ensures r.Some? ==> DictHasType(r.value, KeyString, TAny)
    decreases entries
  {
    if entries == [] then Some(m)
    else match Plain(entries[0].value, depth)
      case None => None
      case Some(v) => PlainEntries(entries[1..], Put(m, KeyString, TAny, KText(entries[0].key), v), depth)
  }

  ghost predicate DictHasType(m: map<Key, Data>, kt: KeyType, e: Type) {
    forall k :: k in m ==> KeyHasType(k, kt) && HasType(m[k], e)
  }

  /** v.SetMapIndex(k, v). */
  ghost function Put(m: map<Key, Data>, kt: KeyType, e: Type, k: Key, v: Data): (r: map<Key, Data>)
    requires DictHasType(m, kt, e) && KeyHasType(k, kt) && HasType(v, e)
    ensures r == m[k := v] && DictHasType(r, kt, e)
  {
    m[k := v]
  }

  // --- typed data ------------------------------------------------------------------

  function Listed(items: Option<seq<Data>>): Option<Data> {
    match items
    case None => None
    case Some(vs) => Some(Items(vs))
  }

  predicate IsScalar(ty: Type) {
    ty.TBool? || ty.TInt? || ty.TNumber? || ty.TString? || ty == TSlice(UINT8)
  }

  /** A leaf read into a type that holds no other. */
  function Scalar(t: W.Tree, ty: Type): (r: Option<Data>)
    requires IsScalar(ty)
    ensures r.Some? ==> HasType(r.value, ty)
  {
    match ty
    case TBool => if t.Bool? then Some(Flag(t.flag)) else None
    case TInt(w) => if t.Number? then ReadInt(t.text, w) else None
    case TNumber => if t.Number? then Some(Chars(t.text)) else None
    case TString => if t.Str? then Some(Chars(t.text)) else None
    case TSlice(_) => if t.Bytes? then Some(Octets(t.body)) else None
  }

  /** What dst, of type ty, holds once t at depth is read into it; None when the
      read is refused. */
  ghost function Decode(reader: Reader, t: W.Tree, ty: Type, dst: Data, depth: nat): (r: Option<Data>)
    requires HasType(dst, ty)
    ensures r.Some? ==> HasType(r.value, ty)
    decreases t, ty, 0
  {
    if t.Absent? then Some(dst)
    else if depth > W.MAX_DEPTH then None
    else match ty
      case TPtr(e) => DecodePtr(reader, t, e, dst, depth)
      case TAny => Plain(t, depth)
      case TSlice(e) => if e == UINT8 then Scalar(t, ty) else DecodeSlice(reader, t, e, depth)
      case TArray(n, e) =>
        if t.List? && |t.items| == n then Listed(DecodeItems(reader, t.items, e, dst.items, depth + 1)) else None
      case TMap(kt, e) => DecodeMap(reader, t, kt, e, dst, depth)
      case TStruct(fs) => DecodeStruct(reader, t, fs, dst.fields, depth)
      case _ => Scalar(t, ty)
  }

  ghost function DecodePtr(reader: Reader, t: W.Tree, e: Type, dst: Data, depth: nat): (r: Option<Data>)
    requires HasType(dst, TPtr(e))
    ensures r.Some? ==> HasType(r.value, TPtr(e))
    decreases t, e, 1
  {
    if t.Null? then Some(Nil)
    else match Decode(reader, t, e, if dst.Nil? then Zero(e) else dst.to, depth)
      case None => None
      case Some(v) => Some(Ptr(v))
  }

  ghost function DecodeSlice(reader: Reader, t: W.Tree, e: Type, depth: nat): (r: Option<Data>)
    requires e != UINT8
    ensures r.Some? ==> HasType(r.value, TSlice(e))
    decreases t, e, 1
  {
    if t.Null? then Some(Nil)
    else if t.List? then Listed(DecodeItems(reader, t.items, e, seq(|t.items|, _ => Zero(e)), depth + 1))
    else None
  }

  ghost function DecodeMap(reader: Reader, t: W.Tree, kt: KeyType, e: Type, dst: Data, depth: nat): (r: Option<Data>)
    requires HasType(dst, TMap(kt, e))
    ensures r.Some? ==> HasType(r.value, TMap(kt, e))
    decreases t, e, 1
  {
    if t.Null? then Some(Nil)
    else if !t.Map? then None
    else match DecodeDict(reader, t.entries, kt, e, if dst.Nil? then map[] else dst.dict, depth + 1)
      case None => None
      case Some(m) => Some(Dict(m))
  }

  ghost function DecodeStruct(reader: Reader, t: W.Tree, fs: seq<Field>, vs: seq<Data>, depth: nat): (r: Option<Data>)
    requires FieldsHaveType(vs, fs)
    ensures r.Some? ==> HasType(r.value, TStruct(fs))
    decreases t, fs, 1
  {
    if !t.Map? then None
    else match if reader.TreeReader?
               then DecodeFields(t.entries, fs, vs, 0, depth + 1)
               else DecodeEntries(t.entries, fs, vs, depth + 1)
      case None => None
      case Some(out) => Some(Record(out))
  }

  ghost function DecodeItems(reader: Reader, items: seq<W.Tree>, e: Type, into: seq<Data>,
        depth: nat): (r: Option<seq<Data>>)
    requires |into| == |items| && AllHaveType(into, e)
    ensures r.Some? ==> |r.value| == |items| && AllHaveType(r.value, e)
    decreases items
  {
    if items == [] then Some([])
    else match Decode(reader, items[0], e, into[0], depth)
      case None => None
      case Some(v) =>
        match DecodeItems(reader, items[1..], e, into[1..], depth)
        case None => None
        case Some(vs) => Some([v] + vs)
  }

  ghost function DecodeDict(reader: Reader, entries: seq<W.Entry>, kt: KeyType, e: Type, m: map<Key, Data>, depth: nat)
    : (r: Option<map<Key, Data>>)
    requires DictHasType(m, kt, e)
    ensures r.Some? ==> DictHasType(r.value, kt, e)
    decreases entries
  {
    if entries == [] then Some(m)
    else match ReadKey(entries[0].key, kt)
      case None => None
      case Some(k) =>
        match Decode(reader, entries[0].value, e, Zero(e), depth)
        case None => None
        case Some(v) => DecodeDict(reader, entries[1..], kt, e, Put(m, kt, e, k, v), depth)
  }

  /** The tree reader's loop over the fields, from the k-th on. */
  ghost function DecodeFields(entries: seq<W.Entry>, fs: seq<Field>, vs: seq<Data>, k: nat,
        depth: nat): (r: Option<seq<Data>>)
    requires FieldsHaveType(vs, fs) && k <= |fs|
    ensures r.Some? ==> FieldsHaveType(r.value, fs)
    decreases entries, |fs| - k
  {
    if k == |fs| then Some(vs)
    else match DecodeField(TreeReader, entries, fs[k], vs[k], depth)
      case None => None
      case Some(v) => DecodeFields(entries, fs, vs[k := v], k + 1, depth)
  }

  /** What one field holds once the entry under its name, if any, is read into it. */
  ghost function DecodeField(reader: Reader, entries: seq<W.Entry>, f: Field, v: Data, depth: nat): (r: Option<Data>)
    requires HasType(v, f.ty)
    ensures r.Some? ==> HasType(r.value, f.ty)
    decreases entries, 0
  {
    var i := FindKey(entries, f.name);
    if i == |entries| then Some(v) else Decode(reader, entries[i].value, f.ty, v, depth)
  }

  /** The tape reader's loop over the entries. */
  ghost function DecodeEntries(entries: seq<W.Entry>, fs: seq<Field>, vs: seq<Data>, depth: nat): (r: Option<seq<Data>>)
    requires FieldsHaveType(vs, fs)
    ensures r.Some? ==> FieldsHaveType(r.value, fs)
    decreases entries
  {
    if entries == [] then Some(vs)
    else
      var k := FieldNamed(fs, entries[0].key);
      if k == |fs| then
        if W.Nests(entries[0].value, depth) then DecodeEntries(entries[1..], fs, vs, depth) else None
      else
        match Decode(TapeReader, entries[0].value, fs[k].ty, vs[k], depth)
        case None => None
        case Some(v) => DecodeEntries(entries[1..], fs, vs[k := v], depth)
  }
}
