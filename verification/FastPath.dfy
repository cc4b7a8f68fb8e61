/** Lists and maps of anything, which writeAny writes without reflection, against what
    write does with them. */
module FastPath {
  import opened Texts
  import opened GoData
  import opened KeyOrder
  import opened Encoding
  import W = Wire

  lemma NonNilNeedsRoom(x: Data, depth: nat)
    requires HasType(x, TAny) && !x.Nil? && depth >= W.MAX_DEPTH
    ensures EncodeAny(x, depth) == None && Encode(TAny, x, depth) == None
  {
  }

  /** Within the limit both write the same; past it only writeAny writes, and only nils. */
  lemma {:induction false} ItemsAlike(vs: seq<Data>, depth: nat)
    requires AllHaveType(vs, TAny)
    ensures depth < W.MAX_DEPTH ==> EncodeItems(vs, TAny, depth, true) == EncodeItems(vs, TAny, depth, false)
    ensures depth >= W.MAX_DEPTH && vs != [] ==> EncodeItems(vs, TAny, depth, false) == None
    ensures depth >= W.MAX_DEPTH ==>
      (EncodeItems(vs, TAny, depth, true).Some? <==> forall i :: 0 <= i < |vs| ==> vs[i].Nil?)
  {
    if vs != [] {
      ItemsAlike(vs[1..], depth);
      if depth >= W.MAX_DEPTH && !vs[0].Nil? { NonNilNeedsRoom(vs[0], depth); }
      assert forall i :: 1 <= i < |vs| ==> vs[i] == vs[1..][i - 1];
    }
  }

  lemma {:induction false} DictAlike(v: Data, ks: seq<Key>, depth: nat)
    requires HasType(v, TMap(KeyString, TAny)) && v.Dict?
    requires forall i :: 0 <= i < |ks| ==> ks[i] in v.dict
    ensures depth < W.MAX_DEPTH ==>
      EncodeDict(v, KeyString, TAny, ks, depth, true) == EncodeDict(v, KeyString, TAny, ks, depth, false)
    ensures depth >= W.MAX_DEPTH && ks != [] ==> EncodeDict(v, KeyString, TAny, ks, depth, false) == None
    ensures depth >= W.MAX_DEPTH ==> (EncodeDict(v, KeyString, TAny, ks, depth, true).Some?
      <==> forall i :: 0 <= i < |ks| ==> v.dict[ks[i]].Nil? && ValidUtf8(KeyText(ks[i])))
  {
    if ks != [] {
      DictAlike(v, ks[1..], depth);
      if depth >= W.MAX_DEPTH && !v.dict[ks[0]].Nil? { NonNilNeedsRoom(v.dict[ks[0]], depth); }
      assert forall i :: 1 <= i < |ks| ==> ks[i] == ks[1..][i - 1];
    }
  }

  /** x is a container at the last level with only nils in it: nothing below it is looked
      at by writeAny, which write would refuse. */
  ghost predicate NilsAtTheLimit(x: Data, depth: nat) {
    depth + 1 == W.MAX_DEPTH && x.Boxed?
    && ((x.data.Items? && x.data.items != [] && forall i :: 0 <= i < |x.data.items| ==> x.data.items[i].Nil?)
        || (x.data.Dict? && x.data.dict.Keys != {}
            && forall k :: k in x.data.dict ==> x.data.dict[k].Nil? && ValidUtf8(KeyText(k))))
  }

  lemma ListAlike(v: Data, depth: nat)
    requires HasType(v, TSlice(TAny)) && v.Items? && depth < W.MAX_DEPTH
    ensures var fast, slow := EncodeSlice(TAny, v, depth, true), EncodeSlice(TAny, v, depth, false);
      if depth + 1 == W.MAX_DEPTH && v.items != []
      then slow == None && (fast.Some? <==> forall i :: 0 <= i < |v.items| ==> v.items[i].Nil?)
      else fast == slow
  {
    ItemsAlike(v.items, depth + 1);
  }

  lemma MapAlike(v: Data, depth: nat)
    requires HasType(v, TMap(KeyString, TAny)) && v.Dict? && depth < W.MAX_DEPTH
    ensures var fast, slow := EncodeMap(KeyString, TAny, v, depth, true), EncodeMap(KeyString, TAny, v, depth, false);
      if depth + 1 == W.MAX_DEPTH && v.dict.Keys != {}
      then slow == None && (fast.Some? <==> forall k :: k in v.dict ==> v.dict[k].Nil? && ValidUtf8(KeyText(k)))
      else fast == slow
  {
    assert EncodeDict(v, KeyString, TAny, [], depth + 1, true) == EncodeDict(v, KeyString, TAny, [], depth + 1, false);
    hide HasType, EncodeDict;
    var keys := v.dict.Keys;
    var ks := Sorted(keys);
    SortedOnce(keys, ks);
    DictAlike(v, ks, depth + 1);
    EmptySort(keys, ks);
    assert SortsTo(keys, ks);
    if depth + 1 == W.MAX_DEPTH && keys != {} {
      assert forall k :: k in v.dict <==> k in ks;
      var fast := EncodeMap(KeyString, TAny, v, depth, true);
      if fast.Some? {
        forall k | k in v.dict ensures v.dict[k].Nil? && ValidUtf8(KeyText(k)) {
          var i :| 0 <= i < |ks| && ks[i] == k;
        }
      }
    }
  }

  /** What writeAny does with a []any or a map[string]any is what write does, except at the
      last level with only nils in it, which writeAny writes and write refuses. */
  lemma WriteAnyIsWrite(x: Data, depth: nat)
    requires HasType(x, TAny) && x.Boxed? && x.ty in [TSlice(TAny), TMap(KeyString, TAny)]
    ensures NilsAtTheLimit(x, depth) ==> EncodeAny(x, depth).Some? && Encode(x.ty, x.data, depth) == None
    ensures !NilsAtTheLimit(x, depth) ==> EncodeAny(x, depth) == Encode(x.ty, x.data, depth)
  {
    if depth < W.MAX_DEPTH {
      if x.data.Items? {
        ListAlike(x.data, depth);
      } else if x.data.Dict? {
        MapAlike(x.data, depth);
      }
    }
  }

  // --- a value the two ways part on, from its root -------------------------------------

  /** n lists, each []any holding the next, around a []any of one nil. */
  function ListsOfAny(n: nat): (x: Data)
    ensures HasType(x, TAny) && x.Boxed? && x.ty == TSlice(TAny)
  {
    if n == 0 then Boxed(TSlice(TAny), Items([Nil])) else Boxed(TSlice(TAny), Items([ListsOfAny(n - 1)]))
  }

  /** The same lists, each of the type that holds the next, and the type of the outermost. */
  function TypedLists(n: nat): (x: (Type, Data))
    ensures HasType(x.1, x.0)
  {
    if n == 0 then (TSlice(TAny), Items([Nil]))
    else
      var inner := TypedLists(n - 1);
      (TSlice(inner.0), Items([inner.1]))
  }

  lemma {:induction false} ListsPart(n: nat, depth: nat)
    requires n + depth + 1 == W.MAX_DEPTH
    ensures EncodeAny(ListsOfAny(n), depth).Some?
    ensures Encode(TypedLists(n).0, TypedLists(n).1, depth) == None
    decreases n
  {
    if n == 0 {
      assert NilsAtTheLimit(ListsOfAny(0), depth);
      WriteAnyIsWrite(ListsOfAny(0), depth);
    } else {
      ListsPart(n - 1, depth + 1);
      OneItem(TAny, ListsOfAny(n - 1), depth, true);
      OneItem(TypedLists(n - 1).0, TypedLists(n - 1).1, depth, false);
    }
  }

  lemma OneItem(e: Type, v: Data, depth: nat, fast: bool)
    requires HasType(v, e) && e != UINT8 && (fast ==> e == TAny)
    ensures EncodeSlice(e, Items([v]), depth, fast).Some?
      <==> if fast then EncodeAny(v, depth + 1).Some? else Encode(e, v, depth + 1).Some?
  {
    var vs := [v];
    assert EncodeItems(vs[1..], e, depth + 1, fast) == Some([]);
  }

  /** 128 lists around a nil, encoded from the outermost: as lists of anything they are
      written, as typed lists they are refused. */
  lemma NilPartsThem()
    ensures EncodeAny(ListsOfAny(W.MAX_DEPTH - 1), 0).Some?
    ensures Encode(TypedLists(W.MAX_DEPTH - 1).0, TypedLists(W.MAX_DEPTH - 1).1, 0) == None
  {
    ListsPart(W.MAX_DEPTH - 1, 0);
  }
}
