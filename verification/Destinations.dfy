/** What reading does to the variable it reads into: what the tree names is overwritten, and
    everything else stays. */
module Destinations {
  import opened Texts
  import opened GoData
  import opened Decoding
  import opened Readers
  import P = PlainData
  import W = Wire

  // --- places ------------------------------------------------------------------------------

  /** A way from a variable to a part of what it holds. */
  datatype Turn = Pointee | Item(at: nat) | Under(key: Key) | Member(at: nat)

  function Place(v: Data, path: seq<Turn>): Option<Data>
    decreases |path|
  {
    if path == [] then Some(v)
    else match path[0]
      case Pointee => if v.Ptr? then Place(v.to, path[1..]) else None
      case Item(i) => if v.Items? && i < |v.items| then Place(v.items[i], path[1..]) else None
      case Under(k) => if v.Dict? && k in v.dict then Place(v.dict[k], path[1..]) else None
      case Member(i) => if v.Record? && i < |v.fields| then Place(v.fields[i], path[1..]) else None
  }

  /** t, read into a ty, says something of the place: a slice and an interface are replaced as
      a whole, and so is what a map has under a key. */
  ghost predicate Names(t: W.Tree, ty: Type, path: seq<Turn>)
    decreases |path|, 0
  {
    !t.Absent?
    && (|| path == []
        || t.Null?
        || match ty
           case TPtr(e) => path[0].Pointee? ==> Names(t, e, path[1..])
           case TArray(_, e) =>
             t.List? && path[0].Item? ==> path[0].at < |t.items| && Names(t.items[path[0].at], e, path[1..])
           case TMap(kt, _) =>
             t.Map? && path[0].Under? ==>
               exists i :: 0 <= i < |t.entries| && Keys(t.entries[i], kt, path[0].key)
           case TStruct(fs) =>
             t.Map? && path[0].Member? ==>
               && path[0].at < |fs|
               && exists i :: 0 <= i < |t.entries| && EntryNames(t.entries[i], fs[path[0].at], path[1..])
           case _ => true)
  }

  ghost predicate Keys(entry: W.Entry, kt: KeyType, k: Key) {
    ReadKey(entry.key, kt) == Some(k)
  }

  ghost predicate EntryNames(entry: W.Entry, f: Field, path: seq<Turn>)
    decreases |path|, 1
  {
    entry.key == f.name && Names(entry.value, f.ty, path)
  }

  /** What the tree does not name stays as it was, in a read by either reader. */
  lemma {:induction false} OnlyTheNamed(reader: Reader, t: W.Tree, ty: Type, dst: Data, depth: nat, path: seq<Turn>)
    requires HasType(dst, ty) && Decode(reader, t, ty, dst, depth).Some?
    requires Place(dst, path).Some? && !Names(t, ty, path)
    ensures Place(Decode(reader, t, ty, dst, depth).value, path) == Place(dst, path)
    decreases |path|, 0
  {
    if !t.Absent? {
      match ty
      case TPtr(e) => OnlyTheNamed(reader, t, e, dst.to, depth, path[1..]);
      case TArray(_, e) =>
        var i := path[0].at;
        ItemsEach(reader, t.items, e, dst.items, depth + 1);
        OnlyTheNamed(reader, t.items[i], e, dst.items[i], depth + 1, path[1..]);
      case TMap(kt, e) => OthersStay(reader, t.entries, kt, e, dst.dict, depth + 1, path[0].key);
      case TStruct(fs) => FieldStays(reader, t.entries, fs, dst.fields, depth + 1, path[0].at, path[1..]);
      case _ =>
    }
  }

  lemma {:induction false} ItemsEach(reader: Reader, items: seq<W.Tree>, e: Type, into: seq<Data>, depth: nat)
    requires |into| == |items| && AllHaveType(into, e)
    ensures var r := DecodeItems(reader, items, e, into, depth);
      r.Some? ==> forall i :: 0 <= i < |items| ==> Decode(reader, items[i], e, into[i], depth) == Some(r.value[i])
    decreases items
  {
    hide Decode, DecodeItems, HasType;
    if items != [] {
      ItemsStep(reader, items, e, into, depth);
      ItemsEach(reader, items[1..], e, into[1..], depth);
      forall i | 0 < i < |items| ensures items[i] == items[1..][i - 1] && into[i] == into[1..][i - 1] {}
    }
  }

  lemma {:induction false} ItemsAll(reader: Reader, items: seq<W.Tree>, e: Type, into: seq<Data>, depth: nat)
    requires |into| == |items| && AllHaveType(into, e)
    requires forall i :: 0 <= i < |items| ==> Decode(reader, items[i], e, into[i], depth).Some?
    ensures DecodeItems(reader, items, e, into, depth).Some?
    decreases items
  {
    hide Decode, DecodeItems, HasType;
    if items == [] {
      NoItemsRead(reader, e, into, depth);
    } else {
      ItemsStep(reader, items, e, into, depth);
      forall i | 0 < i < |items| ensures items[i] == items[1..][i - 1] && into[i] == into[1..][i - 1] {}
      ItemsAll(reader, items[1..], e, into[1..], depth);
    }
  }

  lemma NoItemsRead(reader: Reader, e: Type, into: seq<Data>, depth: nat)
    requires into == []
    ensures DecodeItems(reader, [], e, into, depth) == Some([])
  {
  }

  lemma ItemsStep(reader: Reader, items: seq<W.Tree>, e: Type, into: seq<Data>, depth: nat)
    requires |into| == |items| && AllHaveType(into, e) && items != []
    ensures DecodeItems(reader, items, e, into, depth)
         == var v, vs := Decode(reader, items[0], e, into[0], depth),
                         DecodeItems(reader, items[1..], e, into[1..], depth);
            if v.None? || vs.None? then None else Some([v.value] + vs.value)
  {
    hide Decode, HasType;
  }

  lemma {:induction false} OthersStay(reader: Reader, entries: seq<W.Entry>, kt: KeyType, e: Type, m: map<Key, Data>,
        depth: nat, k: Key)
    requires DictHasType(m, kt, e) && DecodeDict(reader, entries, kt, e, m, depth).Some?
    requires forall i :: 0 <= i < |entries| ==> !Keys(entries[i], kt, k)
    ensures var r := DecodeDict(reader, entries, kt, e, m, depth).value;
      (k in r <==> k in m) && (k in m ==> r[k] == m[k])
    decreases entries
  {
    if entries != [] {
      hide Decode, HasType, DictHasType, ReadKey;
      var v := Decode(reader, entries[0].value, e, Zero(e), depth);
      DictStep(reader, entries, kt, e, m, depth, v);
      OthersStay(reader, entries[1..], kt, e, Put(m, kt, e, ReadKey(entries[0].key, kt).value, v.value), depth, k);
    }
  }

  lemma {:induction false} FieldStays(reader: Reader, entries: seq<W.Entry>, fs: seq<Field>, vs: seq<Data>, depth: nat,
        k: nat, path: seq<Turn>)
    requires FieldsHaveType(vs, fs) && k < |fs| && Place(vs[k], path).Some?
    requires if reader.TreeReader? then DecodeFields(entries, fs, vs, 0, depth).Some?
             else DecodeEntries(entries, fs, vs, depth).Some?
    requires forall i :: 0 <= i < |entries| ==> !EntryNames(entries[i], fs[k], path)
    ensures var r := if reader.TreeReader? then DecodeFields(entries, fs, vs, 0, depth)
                     else DecodeEntries(entries, fs, vs, depth);
      Place(r.value[k], path) == Place(vs[k], path)
    decreases |path|, 2
  {
    hide Decode, HasType, Names, Place;
    if reader.TreeReader? {
      FieldsReadFieldwise(entries, fs, vs, 0, depth);
      var i := FindKey(entries, fs[k].name);
      if i < |entries| { OnlyTheNamed(reader, entries[i].value, fs[k].ty, vs[k], depth, path); }
    } else {
      EntriesLeave(entries, fs, vs, depth, k, path);
    }
  }

  lemma {:induction false} EntriesLeave(entries: seq<W.Entry>, fs: seq<Field>, vs: seq<Data>, depth: nat, k: nat,
        path: seq<Turn>)
    requires FieldsHaveType(vs, fs) && k < |fs| && Place(vs[k], path).Some?
    requires DecodeEntries(entries, fs, vs, depth).Some?
    requires forall i :: 0 <= i < |entries| ==> !EntryNames(entries[i], fs[k], path)
    ensures Place(DecodeEntries(entries, fs, vs, depth).value[k], path) == Place(vs[k], path)
    decreases |path|, 1, |entries|
  {
    if entries != [] {
      hide Decode, HasType, Names, Place;
      var at := FieldNamed(fs, entries[0].key);
      if at == |fs| {
        EntriesLeave(entries[1..], fs, vs, depth, k, path);
      } else {
        var v := Decode(TapeReader, entries[0].value, fs[at].ty, vs[at], depth);
        if at == k { OnlyTheNamed(TapeReader, entries[0].value, fs[k].ty, vs[k], depth, path); }
        EntriesLeave(entries[1..], fs, vs[at := v.value], depth, k, path);
      }
    }
  }

  // --- what the named parts become -----------------------------------------------------------

  /** A key is read from one text only. */
  lemma {:induction false} KeysAreTexts(a: W.Entry, b: W.Entry, kt: KeyType, k: Key)
    requires Keys(a, kt, k) && Keys(b, kt, k)
    ensures a.key == b.key
  {
  }

  /** A slice is made anew, each item read into a new variable; an array's items are read each
      into its own, and there must be as many. */
  lemma {:induction false} ListReadsExactly(reader: Reader, items: seq<W.Tree>, ty: Type, dst: Data, depth: nat,
        v: Data)
    requires (ty.TSlice? && ty.elem != UINT8) || ty.TArray?
    requires HasType(dst, ty)
    ensures Decode(reader, W.List(items), ty, dst, depth) == Some(v)
      <==>
      && depth <= W.MAX_DEPTH && v.Items? && |v.items| == |items| && (ty.TArray? ==> |items| == ty.length)
      && forall i :: 0 <= i < |items| ==>
           Decode(reader, items[i], ty.elem, if ty.TArray? then dst.items[i] else Zero(ty.elem), depth + 1)
           == Some(v.items[i])
  {
    hide Decode, DecodeItems, HasType;
    ListIsItems(reader, items, ty, dst, depth);
    if ty.TArray? ==> |items| == ty.length {
      var into := if ty.TArray? then dst.items else seq(|items|, _ => Zero(ty.elem));
      ItemsEach(reader, items, ty.elem, into, depth + 1);
      if forall i :: 0 <= i < |items| ==> Decode(reader, items[i], ty.elem, into[i], depth + 1).Some? {
        ItemsAll(reader, items, ty.elem, into, depth + 1);
      }
      var r := DecodeItems(reader, items, ty.elem, into, depth + 1);
      if r.Some? && v.Items? && |v.items| == |items| {
        assert r.value == v.items <==> forall i :: 0 <= i < |items| ==> r.value[i] == v.items[i];
      }
    }
  }

  lemma {:induction false} ListIsItems(reader: Reader, items: seq<W.Tree>, ty: Type, dst: Data, depth: nat)
    requires (ty.TSlice? && ty.elem != UINT8) || ty.TArray?
    requires HasType(dst, ty)
    ensures ty.TArray? ==> dst.Items? && |dst.items| == ty.length && AllHaveType(dst.items, ty.elem)
    ensures var into := if ty.TArray? then dst.items else seq(|items|, _ => Zero(ty.elem));
      AllHaveType(into, ty.elem)
      && Decode(reader, W.List(items), ty, dst, depth)
         == if depth > W.MAX_DEPTH || |into| != |items| then None
            else Listed(DecodeItems(reader, items, ty.elem, into, depth + 1))
  {
  }

  /** The entries of a map go in among those already there, each read into a new variable; of
      the others none is lost or changed. */
  lemma {:induction false} MapReadsExactly(reader: Reader, entries: seq<W.Entry>, kt: KeyType, e: Type, dst: Data,
        depth: nat, v: Data)
    requires HasType(dst, TMap(kt, e)) && KeysDiffer(entries)
    ensures var was := if dst.Dict? then dst.dict else map[];
      Decode(reader, W.Map(entries), TMap(kt, e), dst, depth) == Some(v)
      <==>
      && depth <= W.MAX_DEPTH && v.Dict?
      && (forall i :: 0 <= i < |entries| ==> ReadsInto(reader, entries[i], kt, e, depth + 1, v.dict))
      && forall k :: !IsKeyed(entries, kt, k) ==> (k in v.dict <==> k in was) && (k in was ==> v.dict[k] == was[k])
  {
    hide HasType, ReadKey, Decode, DecodeDict, KeysDiffer, ReadsInto, IsKeyed;
    MapIsEntries(reader, entries, kt, e, dst, depth);
    if v.Dict? {
      DictReadsExactly(reader, entries, kt, e, if dst.Dict? then dst.dict else map[], depth + 1, v.dict);
    }
  }

  lemma MapIsEntries(reader: Reader, entries: seq<W.Entry>, kt: KeyType, e: Type, dst: Data, depth: nat)
    requires HasType(dst, TMap(kt, e))
    ensures DictHasType(if dst.Dict? then dst.dict else map[], kt, e)
    ensures Decode(reader, W.Map(entries), TMap(kt, e), dst, depth)
         == if depth > W.MAX_DEPTH then None
            else match DecodeDict(reader, entries, kt, e, if dst.Dict? then dst.dict else map[], depth + 1)
              case None => None
              case Some(m) => Some(Dict(m))
  {
  }

  ghost predicate IsKeyed(entries: seq<W.Entry>, kt: KeyType, k: Key) {
    exists i :: 0 <= i < |entries| && Keys(entries[i], kt, k)
  }

  /** m has what the entry's value is read as, under what its key is read as. */
  ghost predicate ReadsInto(reader: Reader, entry: W.Entry, kt: KeyType, e: Type, depth: nat, m: map<Key, Data>) {
    var k := ReadKey(entry.key, kt);
    k.Some? && k.value in m && Decode(reader, entry.value, e, Zero(e), depth) == Some(m[k.value])
  }

  lemma IsKeyedTail(entries: seq<W.Entry>, kt: KeyType, k: Key)
    requires entries != []
    ensures IsKeyed(entries, kt, k) <==> Keys(entries[0], kt, k) || IsKeyed(entries[1..], kt, k)
  {
    hide Keys;
    if i :| 0 < i < |entries| && Keys(entries[i], kt, k) { assert Keys(entries[1..][i - 1], kt, k); }
  }

  lemma NotKeyedAgain(entries: seq<W.Entry>, kt: KeyType, k: Key)
    requires entries != [] && KeysDiffer(entries) && Keys(entries[0], kt, k)
    ensures KeysDiffer(entries[1..]) && !IsKeyed(entries[1..], kt, k)
    ensures forall j :: Keys(entries[0], kt, j) <==> j == k
  {
    if i :| 0 <= i < |entries[1..]| && Keys(entries[1..][i], kt, k) {
      KeysAreTexts(entries[0], entries[i + 1], kt, k);
    }
  }

  /** m is was but for what the entries key. */
  ghost predicate IsOtherwise(m: map<Key, Data>, was: map<Key, Data>, entries: seq<W.Entry>, kt: KeyType) {
    forall k :: !IsKeyed(entries, kt, k) ==> (k in m <==> k in was) && (k in was ==> m[k] == was[k])
  }

  lemma IsOtherwiseTail(m: map<Key, Data>, was: map<Key, Data>, entries: seq<W.Entry>, kt: KeyType, k0: Key, v0: Data)
    requires entries != [] && KeysDiffer(entries) && Keys(entries[0], kt, k0)
    ensures IsOtherwise(m, was[k0 := v0], entries[1..], kt)
      <==> IsOtherwise(m, was, entries, kt) && k0 in m && m[k0] == v0
  {
    hide Keys, IsKeyed, KeysDiffer;
    NotKeyedAgain(entries, kt, k0);
    forall k ensures IsKeyed(entries, kt, k) <==> k == k0 || IsKeyed(entries[1..], kt, k) {
      IsKeyedTail(entries, kt, k);
    }
  }

  ghost predicate AllReadInto(reader: Reader, entries: seq<W.Entry>, kt: KeyType, e: Type, depth: nat,
        m: map<Key, Data>) {
    forall i :: 0 <= i < |entries| ==> ReadsInto(reader, entries[i], kt, e, depth, m)
  }

  lemma {:induction false} DictReadsExactly(reader: Reader, entries: seq<W.Entry>, kt: KeyType, e: Type,
        was: map<Key, Data>, depth: nat, m: map<Key, Data>)
    requires DictHasType(was, kt, e) && KeysDiffer(entries)
    ensures DecodeDict(reader, entries, kt, e, was, depth) == Some(m)
      <==> AllReadInto(reader, entries, kt, e, depth, m) && IsOtherwise(m, was, entries, kt)
    decreases entries
  {
    hide Decode, DecodeDict, HasType, DictHasType, ReadKey, Keys, IsOtherwise, ReadsInto, AllReadInto, KeysDiffer;
    if entries == [] {
      NoneReadInto(reader, entries, kt, e, was, depth, m);
    } else {
      HeadReads(reader, entries, kt, e, was, depth, m);
      var k, v := ReadKey(entries[0].key, kt), Decode(reader, entries[0].value, e, Zero(e), depth);
      if k.Some? && v.Some? {
        NotKeyedAgain(entries, kt, k.value);
        IsOtherwiseTail(m, was, entries, kt, k.value, v.value);
        DictReadsExactly(reader, entries[1..], kt, e, Put(was, kt, e, k.value, v.value), depth, m);
      }
    }
  }

  lemma NoneReadInto(reader: Reader, entries: seq<W.Entry>, kt: KeyType, e: Type, was: map<Key, Data>, depth: nat,
        m: map<Key, Data>)
    requires entries == [] && DictHasType(was, kt, e)
    ensures DecodeDict(reader, entries, kt, e, was, depth) == Some(was) && AllReadInto(reader, entries, kt, e, depth, m)
    ensures IsOtherwise(m, was, entries, kt) <==> m == was
  {
    hide Decode, DictHasType;
  }

  lemma AllReadIntoTail(reader: Reader, entries: seq<W.Entry>, kt: KeyType, e: Type, depth: nat, m: map<Key, Data>)
    requires entries != []
    ensures AllReadInto(reader, entries, kt, e, depth, m)
      <==> ReadsInto(reader, entries[0], kt, e, depth, m) && AllReadInto(reader, entries[1..], kt, e, depth, m)
  {
    hide ReadsInto;
    forall i | 0 < i < |entries| ensures entries[i] == entries[1..][i - 1] {}
  }

  lemma HeadReads(reader: Reader, entries: seq<W.Entry>, kt: KeyType, e: Type, was: map<Key, Data>, depth: nat,
        m: map<Key, Data>)
    requires entries != [] && DictHasType(was, kt, e)
    ensures var k, v := ReadKey(entries[0].key, kt), Decode(reader, entries[0].value, e, Zero(e), depth);
      && (AllReadInto(reader, entries, kt, e, depth, m)
          <==>
          && k.Some? && v.Some? && k.value in m && m[k.value] == v.value
          && AllReadInto(reader, entries[1..], kt, e, depth, m))
      && (k.Some? ==> Keys(entries[0], kt, k.value))
      && DecodeDict(reader, entries, kt, e, was, depth)
         == if k.None? || v.None? then None
            else DecodeDict(reader, entries[1..], kt, e, Put(was, kt, e, k.value, v.value), depth)
  {
    hide Decode, DecodeDict, HasType, DictHasType, ReadKey, AllReadInto;
    DictStep(reader, entries, kt, e, was, depth, Decode(reader, entries[0].value, e, Zero(e), depth));
    AllReadIntoTail(reader, entries, kt, e, depth, m);
  }

  /** A field has been read from the entry under its name, or had none and is what it was. */
  ghost predicate FieldReads(reader: Reader, entries: seq<W.Entry>, f: Field, was: Data, depth: nat, now: Data)
    requires HasType(was, f.ty)
  {
    (exists i :: 0 <= i < |entries| && EntryReads(reader, entries[i], f, was, depth, now))
    || (now == was && forall i :: 0 <= i < |entries| ==> entries[i].key != f.name)
  }

  ghost predicate EntryReads(reader: Reader, entry: W.Entry, f: Field, was: Data, depth: nat, now: Data)
    requires HasType(was, f.ty)
  {
    entry.key == f.name && Decode(reader, entry.value, f.ty, was, depth) == Some(now)
  }

  lemma FieldReadsItsEntry(reader: Reader, entries: seq<W.Entry>, f: Field, was: Data, depth: nat, now: Data)
    requires HasType(was, f.ty) && KeysDiffer(entries)
    ensures FieldReads(reader, entries, f, was, depth, now)
      <==> DecodeField(reader, entries, f, was, depth) == Some(now)
  {
    hide Decode, HasType, FindKey;
    var i := FindKey(entries, f.name);
    if i < |entries| {
      forall j | 0 <= j < |entries| ensures entries[j].key == f.name <==> j == i {}
      assert FieldReads(reader, entries, f, was, depth, now) <==> EntryReads(reader, entries[i], f, was, depth, now);
    }
  }

  /** A struct's fields are read each on its own; under the keys no field has, the tape reader
      asks that the values do not nest past the limit. */
  lemma {:induction false} StructReadsExactly(reader: Reader, entries: seq<W.Entry>, fs: seq<Field>, dst: Data,
        depth: nat, v: Data)
    requires HasType(dst, TStruct(fs)) && DistinctNames(fs) && KeysDiffer(entries)
    ensures Decode(reader, W.Map(entries), TStruct(fs), dst, depth) == Some(v)
      <==>
      && depth <= W.MAX_DEPTH && v.Record? && |v.fields| == |fs|
      && (forall k :: 0 <= k < |fs| ==> FieldReads(reader, entries, fs[k], dst.fields[k], depth + 1, v.fields[k]))
      && (reader.TapeReader? ==> forall i :: 0 <= i < |entries| && !IsField(fs, entries[i].key) ==>
            W.Nests(entries[i].value, depth + 1))
  {
    hide Decode, HasType, DecodeField, FieldReads, DecodeFields, DecodeEntries, W.Nests;
    StructIsFields(reader, entries, fs, dst, depth);
    FieldsReadFieldwise(entries, fs, dst.fields, 0, depth + 1);
    EntriesReadFieldwise(entries, fs, dst.fields, depth + 1);
    forall i | 0 <= i < |entries| ensures IsField(fs, entries[i].key) <==> FieldNamed(fs, entries[i].key) < |fs| {
      IsFieldNamed(fs, entries[i].key);
    }
    if v.Record? && |v.fields| == |fs| {
      forall k | 0 <= k < |fs|
        ensures FieldReads(reader, entries, fs[k], dst.fields[k], depth + 1, v.fields[k])
          <==> DecodeField(reader, entries, fs[k], dst.fields[k], depth + 1) == Some(v.fields[k])
      {
        FieldReadsItsEntry(reader, entries, fs[k], dst.fields[k], depth + 1, v.fields[k]);
      }
      var r := if reader.TreeReader? then DecodeFields(entries, fs, dst.fields, 0, depth + 1)
               else DecodeEntries(entries, fs, dst.fields, depth + 1);
      if r.Some? {
        assert r.value == v.fields <==> forall k :: 0 <= k < |fs| ==> r.value[k] == v.fields[k];
      }
    }
  }

  predicate IsField(fs: seq<Field>, name: Text) {
    exists k :: 0 <= k < |fs| && fs[k].name == name
  }

  lemma IsFieldNamed(fs: seq<Field>, name: Text)
    ensures IsField(fs, name) <==> FieldNamed(fs, name) < |fs|
  {
    if FieldNamed(fs, name) < |fs| { assert fs[FieldNamed(fs, name)].name == name; }
  }

  lemma StructIsFields(reader: Reader, entries: seq<W.Entry>, fs: seq<Field>, dst: Data, depth: nat)
    requires HasType(dst, TStruct(fs))
    ensures dst.Record? && FieldsHaveType(dst.fields, fs)
    ensures Decode(reader, W.Map(entries), TStruct(fs), dst, depth)
         == if depth > W.MAX_DEPTH then None
            else match if reader.TreeReader? then DecodeFields(entries, fs, dst.fields, 0, depth + 1)
                       else DecodeEntries(entries, fs, dst.fields, depth + 1)
              case None => None
              case Some(out) => Some(Record(out))
  {
  }

  /** A null makes a pointer, a slice, a map or an interface nil, and is refused elsewhere, a
      []byte among them; an absent node leaves a variable as it was. */
  lemma {:induction false} NothingReads(reader: Reader, ty: Type, dst: Data, depth: nat)
    requires HasType(dst, ty)
    ensures Decode(reader, W.Null, ty, dst, depth)
         == if depth <= W.MAX_DEPTH && ty != TSlice(UINT8) && (ty.TPtr? || ty.TSlice? || ty.TMap? || ty.TAny?)
            then Some(Nil) else None
    ensures Decode(reader, W.Absent, ty, dst, depth) == Some(dst)
  {
  }

  /** Reading the same tree again changes nothing. */
  lemma {:induction false} ReadAgain(reader: Reader, t: W.Tree, ty: Type, dst: Data, depth: nat)
    requires HasType(dst, ty) && DistinctFields(ty) && W.DistinctKeys(t)
    requires Decode(reader, t, ty, dst, depth).Some?
    ensures var v := Decode(reader, t, ty, dst, depth).value; Decode(reader, t, ty, v, depth) == Some(v)
    decreases t, ty
  {
    var v := Decode(reader, t, ty, dst, depth).value;
    if t.Absent? || t.Null? {
    } else {
      match ty
      case TPtr(e) => ReadAgain(reader, t, e, if dst.Nil? then Zero(e) else dst.to, depth);
      case TSlice(e) =>
        if e != UINT8 {
          ListReadsExactly(reader, t.items, ty, dst, depth, v);
          ListReadsExactly(reader, t.items, ty, v, depth, v);
        }
      case TArray(_, e) =>
        ListReadsExactly(reader, t.items, ty, dst, depth, v);
        forall i | 0 <= i < |t.items| ensures Decode(reader, t.items[i], e, v.items[i], depth + 1) == Some(v.items[i]) {
          ReadAgain(reader, t.items[i], e, dst.items[i], depth + 1);
        }
        ListReadsExactly(reader, t.items, ty, v, depth, v);
      case TMap(kt, e) =>
        MapReadsExactly(reader, t.entries, kt, e, dst, depth, v);
        MapReadsExactly(reader, t.entries, kt, e, v, depth, v);
      case TStruct(fs) => StructReadsAgain(reader, t, fs, dst, depth);
      case _ =>
    }
  }

  lemma {:induction false} StructReadsAgain(reader: Reader, t: W.Tree, fs: seq<Field>, dst: Data, depth: nat)
    requires HasType(dst, TStruct(fs)) && DistinctFields(TStruct(fs)) && W.DistinctKeys(t)
    requires t.Map? && Decode(reader, t, TStruct(fs), dst, depth).Some?
    ensures var v := Decode(reader, t, TStruct(fs), dst, depth).value;
      Decode(reader, t, TStruct(fs), v, depth) == Some(v)
    decreases t, fs
  {
    var v := Decode(reader, t, TStruct(fs), dst, depth).value;
    StructReadsExactly(reader, t.entries, fs, dst, depth, v);
    forall k | 0 <= k < |fs| ensures FieldReads(reader, t.entries, fs[k], v.fields[k], depth + 1, v.fields[k]) {
      if i :| 0 <= i < |t.entries| && EntryReads(reader, t.entries[i], fs[k], dst.fields[k], depth + 1, v.fields[k]) {
        ReadAgain(reader, t.entries[i].value, fs[k].ty, dst.fields[k], depth + 1);
        assert EntryReads(reader, t.entries[i], fs[k], v.fields[k], depth + 1, v.fields[k]);
      }
    }
    StructReadsExactly(reader, t.entries, fs, v, depth, v);
  }

  // --- how deep --------------------------------------------------------------------------

  /** No container of t with something in it is past the limit. */
  ghost predicate IsShallow(t: W.Tree, depth: nat) {
    match t
    case List(items) =>
      items != [] ==> depth <= W.MAX_DEPTH && forall i :: 0 <= i < |items| ==> IsShallow(items[i], depth + 1)
    case Map(entries) =>
      entries != [] ==>
        depth <= W.MAX_DEPTH && forall i :: 0 <= i < |entries| ==> IsShallow(entries[i].value, depth + 1)
    case _ => true
  }

  lemma {:induction false} FitsIsShallow(t: W.Tree, depth: nat)
    requires W.Fits(t, depth)
    ensures IsShallow(t, depth)
    decreases t
  {
    match t
    case List(items) =>
      forall i | 0 <= i < |items| ensures IsShallow(items[i], depth + 1) { FitsIsShallow(items[i], depth + 1); }
    case Map(entries) =>
      forall i | 0 <= i < |entries| ensures IsShallow(entries[i].value, depth + 1) {
        FitsIsShallow(entries[i].value, depth + 1);
      }
    case _ =>
  }

  lemma {:induction false} NestsIsShallow(t: W.Tree, depth: nat)
    requires W.Nests(t, depth)
    ensures IsShallow(t, depth)
  {
    if depth <= W.MAX_DEPTH {
      W.NestsIsFits(t, depth);
      FitsIsShallow(t, depth);
    }
  }

  /** Whatever the type and the destination, the tape reader takes no tree with a container past
      the limit that holds anything, under a key it passes over or not. */
  lemma {:induction false} TapeReadsShallow(t: W.Tree, ty: Type, dst: Data, depth: nat)
    requires HasType(dst, ty) && Decode(TapeReader, t, ty, dst, depth).Some?
    ensures IsShallow(t, depth)
    decreases t, ty, 0
  {
    match ty
    case TPtr(e) =>
      if !t.Absent? && !t.Null? { TapeReadsShallow(t, e, if dst.Nil? then Zero(e) else dst.to, depth); }
    case TAny => if !t.Absent? { AnyIsShallow(t, depth); }
    case TSlice(e) => if t.List? { ItemsAreShallow(t, ty, dst, depth); }
    case TArray(_, e) => if t.List? { ItemsAreShallow(t, ty, dst, depth); }
    case TMap(kt, e) =>
      if t.Map? { EntriesAreShallow(t.entries, kt, e, if dst.Nil? then map[] else dst.dict, depth + 1); }
    case TStruct(fs) => if t.Map? { FieldsAreShallow(t.entries, fs, dst.fields, depth + 1); }
    case _ =>
  }

  lemma {:induction false} AnyIsShallow(t: W.Tree, depth: nat)
    requires Plain(t, depth).Some?
    ensures IsShallow(t, depth)
  {
    P.PlainIsFits(t, depth);
    FitsIsShallow(t, depth);
  }

  lemma {:induction false} ItemsAreShallow(t: W.Tree, ty: Type, dst: Data, depth: nat)
    requires t.List? && (ty.TSlice? || ty.TArray?)
    requires HasType(dst, ty) && Decode(TapeReader, t, ty, dst, depth).Some?
    ensures IsShallow(t, depth)
    decreases t, ty.elem, 1
  {
    var v := Decode(TapeReader, t, ty, dst, depth).value;
    ListReadsExactly(TapeReader, t.items, ty, dst, depth, v);
    forall i | 0 <= i < |t.items| ensures IsShallow(t.items[i], depth + 1) {
      TapeReadsShallow(t.items[i], ty.elem, if ty.TArray? then dst.items[i] else Zero(ty.elem), depth + 1);
    }
  }

  lemma {:induction false} EntriesAreShallow(entries: seq<W.Entry>, kt: KeyType, e: Type, m: map<Key, Data>, depth: nat)
    requires DictHasType(m, kt, e) && DecodeDict(TapeReader, entries, kt, e, m, depth).Some?
    ensures forall i :: 0 <= i < |entries| ==> IsShallow(entries[i].value, depth)
    decreases entries
  {
    if entries != [] {
      hide Decode, HasType, DictHasType, ReadKey, IsShallow;
      var v := Decode(TapeReader, entries[0].value, e, Zero(e), depth);
      DictStep(TapeReader, entries, kt, e, m, depth, v);
      TapeReadsShallow(entries[0].value, e, Zero(e), depth);
      EntriesAreShallow(entries[1..], kt, e, Put(m, kt, e, ReadKey(entries[0].key, kt).value, v.value), depth);
      forall i | 0 < i < |entries| ensures entries[i] == entries[1..][i - 1] {}
    }
  }

  lemma {:induction false} FieldsAreShallow(entries: seq<W.Entry>, fs: seq<Field>, vs: seq<Data>, depth: nat)
    requires FieldsHaveType(vs, fs) && DecodeEntries(entries, fs, vs, depth).Some?
    ensures forall i :: 0 <= i < |entries| ==> IsShallow(entries[i].value, depth)
    decreases entries
  {
    if entries != [] {
      hide Decode, HasType, W.Nests, IsShallow;
      var at := FieldNamed(fs, entries[0].key);
      if at == |fs| {
        NestsIsShallow(entries[0].value, depth);
        FieldsAreShallow(entries[1..], fs, vs, depth);
      } else {
        var v := Decode(TapeReader, entries[0].value, fs[at].ty, vs[at], depth);
        TapeReadsShallow(entries[0].value, fs[at].ty, vs[at], depth);
        FieldsAreShallow(entries[1..], fs, vs[at := v.value], depth);
      }
      forall i | 0 < i < |entries| ensures entries[i] == entries[1..][i - 1] {}
    }
  }
}
