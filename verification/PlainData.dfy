/** What a tree is read as into an `any`, and what such plain data is written as: each is the
    other's inverse. */
module PlainData {
  import opened Texts
  import opened GoData
  import opened KeyOrder
  import opened Encoding
  import opened Decoding
  import W = Wire

  // --- what comes back of a tree ----------------------------------------------------------

  /** Every node of t but a null or an absent one, t itself at depth, lies below fewer than
      MAX_DEPTH others. */
  ghost predicate HasRoom(t: W.Tree, depth: nat) {
    match t
    case Absent => true
    case Null => true
    case List(items) => depth < W.MAX_DEPTH && forall i :: 0 <= i < |items| ==> HasRoom(items[i], depth + 1)
    case Map(entries) =>
      depth < W.MAX_DEPTH && forall i :: 0 <= i < |entries| ==> HasRoom(entries[i].value, depth + 1)
    case _ => depth < W.MAX_DEPTH
  }

  /** The entries' keys go up, byte by byte. */
  ghost predicate KeysGoUp(entries: seq<W.Entry>) {
    forall i, j :: 0 <= i < j < |entries| ==> Precedes(entries[i].key, entries[j].key)
  }

  ghost predicate HasKey(entries: seq<W.Entry>, key: Text) {
    exists i :: 0 <= i < |entries| && entries[i].key == key
  }

  /** u is t with its absent nodes null and its maps' entries in order. */
  ghost predicate Normalizes(t: W.Tree, u: W.Tree)
    decreases t
  {
    match t
    case Absent => u == W.Null
    case List(items) =>
      u.List? && |u.items| == |items| && forall i :: 0 <= i < |items| ==> Normalizes(items[i], u.items[i])
    case Map(entries) => u.Map? && AreNormal(entries, u.entries)
    case _ => u == t
  }

  /** es are the entries in order, the value under each key normalized. */
  ghost predicate AreNormal(entries: seq<W.Entry>, es: seq<W.Entry>)
    decreases entries
  {
    && KeysGoUp(es)
    && (forall i :: 0 <= i < |entries| ==> HasNormal(entries[i], es))
    && forall j :: 0 <= j < |es| ==> HasKey(entries, es[j].key)
  }

  ghost predicate HasNormal(e: W.Entry, es: seq<W.Entry>)
    decreases e
  {
    exists j :: 0 <= j < |es| && es[j].key == e.key && Normalizes(e.value, es[j].value)
  }

  /** t has no absent node, and its maps' keys are in order. */
  ghost predicate Regular(t: W.Tree) {
    match t
    case Absent => false
    case List(items) => forall i :: 0 <= i < |items| ==> Regular(items[i])
    case Map(entries) => KeysGoUp(entries) && forall i :: 0 <= i < |entries| ==> Regular(entries[i].value)
    case _ => true
  }

  /** Read as plain data and written again, a tree comes back with its absent nodes null and its
      maps sorted; it is refused if and only if a node that is no null is past the limit. */
  lemma {:induction false} PlainWritesBack(t: W.Tree, depth: nat)
    requires W.WellFormed(t) && W.DistinctKeys(t) && Plain(t, depth).Some?
    ensures EncodeAny(Plain(t, depth).value, depth).Some? <==> HasRoom(t, depth)
    ensures HasRoom(t, depth) ==> Normalizes(t, EncodeAny(Plain(t, depth).value, depth).value)
    decreases t, 1
  {
    match t
    case List(items) => ListWritesBack(items, depth);
    case Map(entries) => MapWritesBack(entries, depth);
    case _ =>
  }

  lemma {:induction false} ListWritesBack(items: seq<W.Tree>, depth: nat)
    requires W.WellFormed(W.List(items)) && W.DistinctKeys(W.List(items)) && Plain(W.List(items), depth).Some?
    ensures EncodeAny(Plain(W.List(items), depth).value, depth).Some? <==> HasRoom(W.List(items), depth)
    ensures HasRoom(W.List(items), depth) ==>
      Normalizes(W.List(items), EncodeAny(Plain(W.List(items), depth).value, depth).value)
    decreases items, 1
  {
    hide HasType, W.WellFormed, W.DistinctKeys, EncodeAny, EncodeItems, Plain, PlainItems, Normalizes, HasRoom;
    ItemsAreSound(items);
    BoxedListWrites(items, depth);
    ItemsWriteBack(items, depth + 1);
    ListIsNormal(items, EncodeItems(PlainItems(items, depth + 1).value, TAny, depth + 1, true), depth);
  }

  lemma ItemsAreSound(items: seq<W.Tree>)
    requires W.WellFormed(W.List(items)) && W.DistinctKeys(W.List(items))
    ensures forall i :: 0 <= i < |items| ==> W.WellFormed(items[i]) && W.DistinctKeys(items[i])
  {
  }

  lemma {:induction false} BoxedListWrites(items: seq<W.Tree>, depth: nat)
    requires Plain(W.List(items), depth).Some?
    ensures PlainItems(items, depth + 1).Some?
    ensures var vs := PlainItems(items, depth + 1).value;
      EncodeAny(Plain(W.List(items), depth).value, depth)
      == if depth >= W.MAX_DEPTH then None else AsList(EncodeItems(vs, TAny, depth + 1, true))
  {
  }

  lemma ListIsNormal(items: seq<W.Tree>, r: Option<seq<W.Tree>>, depth: nat)
    requires r.Some? <==> forall i :: 0 <= i < |items| ==> HasRoom(items[i], depth + 1)
    requires r.Some? ==> |r.value| == |items| && forall i :: 0 <= i < |items| ==> Normalizes(items[i], r.value[i])
    ensures HasRoom(W.List(items), depth) <==> depth < W.MAX_DEPTH && r.Some?
    ensures r.Some? ==> Normalizes(W.List(items), W.List(r.value))
  {
  }

  lemma {:induction false} ItemsWriteBack(items: seq<W.Tree>, depth: nat)
    requires forall i :: 0 <= i < |items| ==> W.WellFormed(items[i]) && W.DistinctKeys(items[i])
    requires PlainItems(items, depth).Some?
    ensures var r := EncodeItems(PlainItems(items, depth).value, TAny, depth, true);
      && (r.Some? <==> forall i :: 0 <= i < |items| ==> HasRoom(items[i], depth))
      && (r.Some? ==> |r.value| == |items| && forall i :: 0 <= i < |items| ==> Normalizes(items[i], r.value[i]))
    decreases items, 0
  {
    if items != [] {
      hide W.WellFormed, W.DistinctKeys, HasRoom, Normalizes, Plain, EncodeAny, HasType;
      PlainWritesBack(items[0], depth);
      ItemsWriteBack(items[1..], depth);
      forall i | 0 < i < |items| ensures items[i] == items[1..][i - 1] {}
    }
  }

  // --- maps ------------------------------------------------------------------------

  /** m holds the entries as plain data, each under its key, and nothing else. */
  ghost predicate Holds(m: map<Key, Data>, entries: seq<W.Entry>, depth: nat) {
    && (forall i :: 0 <= i < |entries| ==>
          KText(entries[i].key) in m && Plain(entries[i].value, depth) == Some(m[KText(entries[i].key)]))
    && forall k :: k in m ==> IsKeyOf(k, entries)
  }

  ghost predicate IsKeyOf(k: Key, entries: seq<W.Entry>) {
    exists i :: 0 <= i < |entries| && k == KText(entries[i].key)
  }

  lemma IsKeyOfTail(k: Key, entries: seq<W.Entry>)
    requires entries != []
    ensures IsKeyOf(k, entries) <==> k == KText(entries[0].key) || IsKeyOf(k, entries[1..])
  {
    if i :| 0 < i < |entries| && k == KText(entries[i].key) { assert k == KText(entries[1..][i - 1].key); }
  }

  /** What the loop over entries leaves: what was there, and each entry's value under its key. */
  lemma {:induction false} EntriesGoIn(entries: seq<W.Entry>, m: map<Key, Data>, depth: nat)
    requires DictHasType(m, KeyString, TAny) && PlainEntries(entries, m, depth).Some?
    requires forall i, j :: 0 <= i < j < |entries| ==> entries[i].key != entries[j].key
    ensures var r := PlainEntries(entries, m, depth).value;
      && (forall i :: 0 <= i < |entries| ==>
            KText(entries[i].key) in r && Plain(entries[i].value, depth) == Some(r[KText(entries[i].key)]))
      && (forall k :: k in r <==> k in m || IsKeyOf(k, entries))
      && (forall k :: k in m && !IsKeyOf(k, entries) ==> r[k] == m[k])
    decreases entries
  {
    if entries == [] {
    } else {
      hide Plain, DictHasType, HasType, IsKeyOf;
      var k0, tail := KText(entries[0].key), entries[1..];
      var v := Plain(entries[0].value, depth).value;
      EntriesGoIn(tail, Put(m, KeyString, TAny, k0, v), depth);
      var r := PlainEntries(entries, m, depth).value;
      assert !IsKeyOf(k0, tail) by { NotAmongTheRest(entries); }
      forall k ensures IsKeyOf(k, entries) <==> k == k0 || IsKeyOf(k, tail) { IsKeyOfTail(k, entries); }
      assert r == PlainEntries(tail, m[k0 := v], depth).value;
      forall i | 0 < i < |entries| ensures entries[i] == tail[i - 1] {}
    }
  }

  lemma NotAmongTheRest(entries: seq<W.Entry>)
    requires entries != [] && forall i, j :: 0 <= i < j < |entries| ==> entries[i].key != entries[j].key
    ensures !IsKeyOf(KText(entries[0].key), entries[1..])
  {
  }

  /** Each entry of a written map is what its own key's value is written as. */
  lemma {:induction false} EachIsWritten(v: Data, ks: seq<Key>, depth: nat)
    requires HasType(v, TMap(KeyString, TAny)) && v.Dict? && forall i :: 0 <= i < |ks| ==> ks[i] in v.dict
    ensures var r := EncodeDict(v, KeyString, TAny, ks, depth, true);
      && (r.Some? <==> forall i :: 0 <= i < |ks| ==>
            ValidUtf8(KeyText(ks[i])) && HasType(v.dict[ks[i]], TAny) && EncodeAny(v.dict[ks[i]], depth).Some?)
      && (r.Some? ==> forall i :: 0 <= i < |ks| ==>
            r.value[i].key == KeyText(ks[i]) && Some(r.value[i].value) == EncodeAny(v.dict[ks[i]], depth))
    decreases |ks|
  {
    if ks != [] {
      forall i | 0 <= i < |ks| ensures HasType(v.dict[ks[i]], TAny) {}
      hide HasType, EncodeAny, ValidUtf8, KeyText;
      EachIsWritten(v, ks[1..], depth);
      forall i | 0 < i < |ks| ensures ks[i] == ks[1..][i - 1] {}
    }
  }

  lemma {:induction false} MapHolds(entries: seq<W.Entry>, depth: nat)
    requires W.DistinctKeys(W.Map(entries)) && Plain(W.Map(entries), depth).Some?
    ensures PlainEntries(entries, map[], depth + 1).Some?
    ensures var m := PlainEntries(entries, map[], depth + 1).value;
      Plain(W.Map(entries), depth) == Some(Boxed(TMap(KeyString, TAny), Dict(m))) && Holds(m, entries, depth + 1)
  {
    EntriesGoIn(entries, map[], depth + 1);
  }

  lemma {:induction false} MapWritesBack(entries: seq<W.Entry>, depth: nat)
    requires W.WellFormed(W.Map(entries)) && W.DistinctKeys(W.Map(entries)) && Plain(W.Map(entries), depth).Some?
    ensures EncodeAny(Plain(W.Map(entries), depth).value, depth).Some? <==> HasRoom(W.Map(entries), depth)
    ensures HasRoom(W.Map(entries), depth) ==>
      Normalizes(W.Map(entries), EncodeAny(Plain(W.Map(entries), depth).value, depth).value)
    decreases entries, 1
  {
    hide HasType, W.WellFormed, W.DistinctKeys, EncodeAny, EncodeDict, Plain, PlainEntries, Normalizes, HasRoom;
    EntriesAreSound(entries);
    MapHolds(entries, depth);
    var m := PlainEntries(entries, map[], depth + 1).value;
    BoxedMapWrites(m, depth);
    if depth < W.MAX_DEPTH {
      SortedWriteBack(entries, m, Sorted(m.Keys), depth + 1);
      MapIsNormal(entries, EncodeDict(Dict(m), KeyString, TAny, Sorted(m.Keys), depth + 1, true), depth);
    } else {
      NoRoom(entries, depth);
    }
  }

  lemma EntriesAreSound(entries: seq<W.Entry>)
    requires W.WellFormed(W.Map(entries)) && W.DistinctKeys(W.Map(entries))
    ensures forall i :: 0 <= i < |entries| ==> W.WellFormedEntry(entries[i]) && W.DistinctKeys(entries[i].value)
  {
  }

  lemma NoRoom(entries: seq<W.Entry>, depth: nat)
    requires depth >= W.MAX_DEPTH
    ensures !HasRoom(W.Map(entries), depth)
  {
  }

  lemma BoxedMapWrites(m: map<Key, Data>, depth: nat)
    requires DictHasType(m, KeyString, TAny)
    ensures HasType(Dict(m), TMap(KeyString, TAny)) && HasType(Boxed(TMap(KeyString, TAny), Dict(m)), TAny)
    ensures forall i :: 0 <= i < |Sorted(m.Keys)| ==> Sorted(m.Keys)[i] in m
    ensures EncodeAny(Boxed(TMap(KeyString, TAny), Dict(m)), depth)
         == if depth >= W.MAX_DEPTH then None
            else AsMap(EncodeDict(Dict(m), KeyString, TAny, Sorted(m.Keys), depth + 1, true))
  {
    SortedOnce(m.Keys, Sorted(m.Keys));
  }

  lemma MapIsNormal(entries: seq<W.Entry>, r: Option<seq<W.Entry>>, depth: nat)
    requires depth < W.MAX_DEPTH
    requires r.Some? <==> forall i :: 0 <= i < |entries| ==> HasRoom(entries[i].value, depth + 1)
    requires r.Some? ==> AreNormal(entries, r.value)
    ensures r.Some? <==> HasRoom(W.Map(entries), depth)
    ensures r.Some? ==> Normalizes(W.Map(entries), W.Map(r.value))
  {
  }

  lemma {:induction false} SortedWriteBack(entries: seq<W.Entry>, m: map<Key, Data>, ks: seq<Key>, depth: nat)
    requires HasType(Dict(m), TMap(KeyString, TAny)) && Holds(m, entries, depth) && SortsTo(m.Keys, ks)
    requires forall i :: 0 <= i < |entries| ==> W.WellFormedEntry(entries[i]) && W.DistinctKeys(entries[i].value)
    ensures forall i :: 0 <= i < |ks| ==> ks[i] in m
    ensures var r := EncodeDict(Dict(m), KeyString, TAny, ks, depth, true);
      && (r.Some? <==> forall i :: 0 <= i < |entries| ==> HasRoom(entries[i].value, depth))
      && (r.Some? ==> AreNormal(entries, r.value))
    decreases entries, 0
  {
    hide HasType, W.DistinctKeys, EncodeAny, EncodeDict, Plain, Normalizes, HasRoom, ValidUtf8;
    SortedOnce(m.Keys, ks);
    EachIsWritten(Dict(m), ks, depth);
    forall i | 0 <= i < |entries|
      ensures EncodeAny(m[KText(entries[i].key)], depth).Some? <==> HasRoom(entries[i].value, depth)
      ensures HasRoom(entries[i].value, depth) ==>
        Normalizes(entries[i].value, EncodeAny(m[KText(entries[i].key)], depth).value)
    {
      PlainWritesBack(entries[i].value, depth);
    }
    var r := EncodeDict(Dict(m), KeyString, TAny, ks, depth, true);
    forall i | 0 <= i < |ks| ensures IsKeyOf(ks[i], entries) {}
    forall i | 0 <= i < |entries| ensures exists j :: 0 <= j < |ks| && ks[j] == KText(entries[i].key) {
      assert KText(entries[i].key) in ks;
    }
  }

  // --- what is read at all ------------------------------------------------------------

  lemma {:induction false} PlainIsFits(t: W.Tree, depth: nat)
    ensures Plain(t, depth).Some? <==> W.Fits(t, depth)
    decreases t
  {
    if depth <= W.MAX_DEPTH {
      match t
      case List(items) => PlainItemsFit(items, depth + 1);
      case Map(entries) => PlainEntriesFit(entries, map[], depth + 1);
      case _ =>
    }
  }

  lemma {:induction false} PlainItemsFit(items: seq<W.Tree>, depth: nat)
    ensures PlainItems(items, depth).Some? <==> forall i :: 0 <= i < |items| ==> W.Fits(items[i], depth)
    decreases items
  {
    if items != [] {
      PlainIsFits(items[0], depth);
      PlainItemsFit(items[1..], depth);
      assert forall i :: 1 <= i < |items| ==> items[i] == items[1..][i - 1];
    }
  }

  lemma {:induction false} PlainEntriesFit(entries: seq<W.Entry>, m: map<Key, Data>, depth: nat)
    requires DictHasType(m, KeyString, TAny)
    ensures PlainEntries(entries, m, depth).Some? <==>
      forall i :: 0 <= i < |entries| ==> W.Fits(entries[i].value, depth)
    decreases entries
  {
    if entries != [] {
      PlainIsFits(entries[0].value, depth);
      var v := Plain(entries[0].value, depth);
      assert forall i :: 1 <= i < |entries| ==> entries[i] == entries[1..][i - 1];
      if v.Some? {
        PlainEntriesFit(entries[1..], Put(m, KeyString, TAny, KText(entries[0].key), v.value), depth);
      }
    }
  }

  lemma {:induction false} RoomIsFits(t: W.Tree, depth: nat)
    requires HasRoom(t, depth) && depth <= W.MAX_DEPTH
    ensures W.Fits(t, depth)
    decreases t
  {
    match t
    case List(items) =>
      forall i | 0 <= i < |items| ensures W.Fits(items[i], depth + 1) { RoomIsFits(items[i], depth + 1); }
    case Map(entries) =>
      forall i | 0 <= i < |entries| ensures W.Fits(entries[i].value, depth + 1) {
        RoomIsFits(entries[i].value, depth + 1);
      }
    case _ =>
  }

  // --- a tree that is normal already ------------------------------------------------------

  ghost function KeysOf(entries: seq<W.Entry>): (ks: seq<Key>)
    ensures |ks| == |entries| && forall i :: 0 <= i < |ks| ==> ks[i] == KText(entries[i].key)
  {
    seq(|entries|, i requires 0 <= i < |entries| => KText(entries[i].key))
  }

  lemma KeysSort(entries: seq<W.Entry>, keys: set<Key>)
    requires KeysGoUp(entries) && forall k :: k in keys <==> k.KText? && HasKey(entries, k.text)
    ensures SortsTo(keys, KeysOf(entries))
  {
    var ks := KeysOf(entries);
    forall k ensures k in keys <==> k in ks {
      if k in ks {
        var i :| 0 <= i < |ks| && ks[i] == k;
        assert entries[i].key == k.text;
      }
      if k in keys {
        var i :| 0 <= i < |entries| && entries[i].key == k.text;
        assert ks[i] == k;
      }
    }
  }

  /** Two lists of entries in order with the same keys have them at the same places. */
  lemma KeysAlign(a: seq<W.Entry>, b: seq<W.Entry>)
    requires KeysGoUp(a) && KeysGoUp(b) && forall key :: HasKey(a, key) <==> HasKey(b, key)
    ensures |a| == |b| && forall i :: 0 <= i < |a| ==> a[i].key == b[i].key
  {
    var keys := set k | k in KeysOf(a);
    KeysSort(a, set k | k in KeysOf(a)) by {
      forall k ensures k in keys <==> k.KText? && HasKey(a, k.text) {
        if k.KText? && HasKey(a, k.text) {
          var i :| 0 <= i < |a| && a[i].key == k.text;
          assert KeysOf(a)[i] == k;
        }
        if k in keys {
          var i :| 0 <= i < |a| && KeysOf(a)[i] == k;
          assert a[i].key == k.text;
        }
      }
    }
    hide KeysGoUp, HasKey;
    KeysSort(b, keys);
    SortIsUnique(keys, KeysOf(a), KeysOf(b));
    forall i | 0 <= i < |a| ensures a[i].key == b[i].key { assert KeysOf(a)[i] == KeysOf(b)[i]; }
  }

  lemma KeysApart(entries: seq<W.Entry>)
    requires KeysGoUp(entries)
    ensures forall i, j :: 0 <= i < j < |entries| ==> entries[i].key != entries[j].key
  {
    forall i, j | 0 <= i < j < |entries| ensures entries[i].key != entries[j].key {
      PrecedesIsTotal(entries[i].key, entries[j].key);
    }
  }

  lemma {:induction false} RegularIsDistinct(t: W.Tree)
    requires Regular(t)
    ensures W.DistinctKeys(t)
    decreases t
  {
    match t
    case List(items) => forall i | 0 <= i < |items| ensures W.DistinctKeys(items[i]) { RegularIsDistinct(items[i]); }
    case Map(entries) =>
      KeysApart(entries);
      forall i | 0 <= i < |entries| ensures W.DistinctKeys(entries[i].value) { RegularIsDistinct(entries[i].value); }
    case _ =>
  }

  lemma NormalHasKeys(entries: seq<W.Entry>, es: seq<W.Entry>)
    requires AreNormal(entries, es)
    ensures forall key :: HasKey(entries, key) <==> HasKey(es, key)
  {
    hide Normalizes, KeysGoUp, HasNormal;
    forall key ensures HasKey(entries, key) ==> HasKey(es, key) {
      if HasKey(entries, key) {
        var i :| 0 <= i < |entries| && entries[i].key == key;
        NormalHasKey(entries[i], es);
      }
    }
  }

  lemma NormalHasKey(e: W.Entry, es: seq<W.Entry>)
    requires HasNormal(e, es)
    ensures HasKey(es, e.key)
  {
    hide Normalizes;
  }

  lemma {:induction false} RegularIsNormal(t: W.Tree, u: W.Tree)
    requires Regular(t) && Normalizes(t, u)
    ensures u == t
    decreases t
  {
    match t
    case List(items) =>
      forall i | 0 <= i < |items| ensures u.items[i] == items[i] { RegularIsNormal(items[i], u.items[i]); }
    case Map(entries) =>
      var es := u.entries;
      NormalHasKeys(entries, es);
      KeysAlign(entries, es);
      KeysApart(es);
      forall i | 0 <= i < |entries| ensures es[i] == entries[i] {
        assert HasNormal(entries[i], es);
        var j :| 0 <= j < |es| && es[j].key == entries[i].key && Normalizes(entries[i].value, es[j].value);
        assert j == i;
        RegularIsNormal(entries[i].value, es[i].value);
      }
      assert es == entries;
    case _ =>
  }

  /** A tree with no absent node, its maps sorted and its nodes within the limit comes back from
      an `any` as it was. */
  lemma {:induction false} PlainComesBack(t: W.Tree, depth: nat)
    requires W.WellFormed(t) && Regular(t) && HasRoom(t, depth) && depth <= W.MAX_DEPTH
    ensures Plain(t, depth).Some? && EncodeAny(Plain(t, depth).value, depth) == Some(t)
  {
    RoomIsFits(t, depth);
    PlainIsFits(t, depth);
    RegularIsDistinct(t);
    PlainWritesBack(t, depth);
    RegularIsNormal(t, EncodeAny(Plain(t, depth).value, depth).value);
  }

  // --- what comes back of plain data -----------------------------------------------------

  /** nil, or a bool, a Number, a string, a []byte, or a []any or map[string]any of such. */
  ghost predicate IsPlain(x: Data) {
    x.Nil?
    || (x.Boxed?
        && (|| x.ty in [TBool, TNumber, TString]
            || (x.ty == TSlice(UINT8) && x.data.Octets?)
            || (x.ty == TSlice(TAny) && x.data.Items?
                && forall i :: 0 <= i < |x.data.items| ==> IsPlain(x.data.items[i]))
            || (x.ty == TMap(KeyString, TAny) && x.data.Dict?
                && forall k :: k in x.data.dict ==> IsPlain(x.data.dict[k]))))
  }

  /** What any tree is read as is plain data. */
  lemma {:induction false} ReadsPlain(t: W.Tree, depth: nat)
    requires Plain(t, depth).Some?
    ensures IsPlain(Plain(t, depth).value)
    decreases t
  {
    match t
    case List(items) => ItemsReadPlain(items, depth + 1);
    case Map(entries) => EntriesReadPlain(entries, map[], depth + 1);
    case _ =>
  }

  lemma {:induction false} ItemsReadPlain(items: seq<W.Tree>, depth: nat)
    requires PlainItems(items, depth).Some?
    ensures var vs := PlainItems(items, depth).value; forall i :: 0 <= i < |vs| ==> IsPlain(vs[i])
    decreases items
  {
    hide Plain, IsPlain, HasType;
    if items != [] {
      ReadsPlain(items[0], depth);
      ItemsReadPlain(items[1..], depth);
    }
  }

  lemma {:induction false} EntriesReadPlain(entries: seq<W.Entry>, m: map<Key, Data>, depth: nat)
    requires DictHasType(m, KeyString, TAny) && PlainEntries(entries, m, depth).Some?
    requires forall k :: k in m ==> IsPlain(m[k])
    ensures var r := PlainEntries(entries, m, depth).value; forall k :: k in r ==> IsPlain(r[k])
    decreases entries
  {
    if entries != [] {
      ReadsPlain(entries[0].value, depth);
      var put := Put(m, KeyString, TAny, KText(entries[0].key), Plain(entries[0].value, depth).value);
      EntriesReadPlain(entries[1..], put, depth);
    }
  }

  /** Plain data comes back from what it is written as. */
  lemma {:induction false} PlainReadsBack(x: Data, depth: nat)
    requires HasType(x, TAny) && IsPlain(x) && depth <= W.MAX_DEPTH && EncodeAny(x, depth).Some?
    ensures Plain(EncodeAny(x, depth).value, depth) == Some(x)
    decreases x, 2
  {
    if x.Nil? {
    } else if x.ty == TSlice(TAny) {
      ItemsReadBack(x.data.items, depth + 1);
    } else if x.ty == TMap(KeyString, TAny) {
      DictReadsBack(x.data, depth);
    }
  }

  lemma {:induction false} ItemsReadBack(vs: seq<Data>, depth: nat)
    requires AllHaveType(vs, TAny) && depth <= W.MAX_DEPTH && EncodeItems(vs, TAny, depth, true).Some?
    requires forall i :: 0 <= i < |vs| ==> IsPlain(vs[i])
    ensures PlainItems(EncodeItems(vs, TAny, depth, true).value, depth) == Some(vs)
    decreases vs
  {
    if vs != [] {
      hide HasType, IsPlain, EncodeAny, Plain;
      ItemsWrite(vs, TAny, depth, true);
      PlainReadsBack(vs[0], depth);
      ItemsReadBack(vs[1..], depth);
      assert [vs[0]] + vs[1..] == vs;
    }
  }

  lemma {:induction false} DictReadsBack(v: Data, depth: nat)
    requires v.Dict? && DictHasType(v.dict, KeyString, TAny) && HasType(Boxed(TMap(KeyString, TAny), v), TAny)
    requires forall k :: k in v.dict ==> IsPlain(v.dict[k])
    requires depth <= W.MAX_DEPTH && EncodeAny(Boxed(TMap(KeyString, TAny), v), depth).Some?
    ensures Plain(EncodeAny(Boxed(TMap(KeyString, TAny), v), depth).value, depth)
         == Some(Boxed(TMap(KeyString, TAny), v))
    decreases v, 1
  {
    hide HasType, DictHasType, IsPlain, EncodeDict, EncodeAny, Plain, PlainEntries, ValidUtf8, SortsTo;
    BoxedMapWrites(v.dict, depth);
    ValuesArePlain(v.dict);
    var ks := Sorted(v.dict.Keys);
    var es := EncodeDict(v, KeyString, TAny, ks, depth + 1, true).value;
    EachIsWritten(v, ks, depth + 1);
    forall i | 0 <= i < |ks|
      ensures es[i].key == ks[i].text && Plain(es[i].value, depth + 1) == Some(v.dict[ks[i]])
    {
      PlainReadsBack(v.dict[ks[i]], depth + 1);
    }
    EntriesAre(es, v.dict, ks, depth + 1);
    MapReads(es, depth);
  }

  lemma ValuesArePlain(m: map<Key, Data>)
    requires DictHasType(m, KeyString, TAny)
    ensures forall k :: k in m ==> k.KText? && HasType(m[k], TAny)
  {
  }

  lemma MapReads(es: seq<W.Entry>, depth: nat)
    requires depth <= W.MAX_DEPTH && PlainEntries(es, map[], depth + 1).Some?
    ensures Plain(W.Map(es), depth)
         == Some(Boxed(TMap(KeyString, TAny), Dict(PlainEntries(es, map[], depth + 1).value)))
  {
  }

  lemma {:induction false} EntriesAre(es: seq<W.Entry>, m: map<Key, Data>, ks: seq<Key>, depth: nat)
    requires |es| == |ks| && SortsTo(m.Keys, ks) && forall i :: 0 <= i < |ks| ==> ks[i].KText? && ks[i] in m
    requires forall i :: 0 <= i < |ks| ==> es[i].key == ks[i].text && Plain(es[i].value, depth) == Some(m[ks[i]])
    ensures PlainEntries(es, map[], depth) == Some(m)
  {
    hide Plain, HasType, W.Fits, PlainEntries, IsKeyOf;
    SortedOnce(m.Keys, ks);
    forall i | 0 <= i < |es| ensures W.Fits(es[i].value, depth) { PlainIsFits(es[i].value, depth); }
    PlainEntriesFit(es, map[], depth);
    forall i, j | 0 <= i < j < |es| ensures es[i].key != es[j].key { assert ks[i] != ks[j]; }
    EntriesGoIn(es, map[], depth);
    var r := PlainEntries(es, map[], depth).value;
    forall k ensures k in r <==> k in m { KeysAre(es, ks, k); }
    forall k | k in m ensures r[k] == m[k] {
      var i :| 0 <= i < |ks| && ks[i] == k;
      assert KText(es[i].key) == k;
    }
    assert r == m;
  }

  lemma KeysAre(es: seq<W.Entry>, ks: seq<Key>, k: Key)
    requires |es| == |ks| && forall i :: 0 <= i < |ks| ==> ks[i] == KText(es[i].key)
    ensures IsKeyOf(k, es) <==> k in ks
  {
    if k in ks { var i :| 0 <= i < |ks| && ks[i] == k; assert KText(es[i].key) == k; }
  }
}
