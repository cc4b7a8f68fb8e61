/** The two sinks one encoder writes to: wire bytes appended to a buffer, and a tree
    built in memory a container at a time. */
module Sinks {
  import opened Texts
  import opened Wire
  import opened Events

  // --- tapeSink ------------------------------------------------------------------

  function EventBytes(ev: Event): Text {
    match ev
    case ENull => [NULL]
    case EBool(b) => [BOOL, if b then 1 else 0]
    case ENumber(text) => [NUMBER] + Sized(text)
    case EText(text) => [STRING] + Sized(text)
    case EBytes(body) => [BYTES] + Sized(body)
    case EList(n) => [LIST] + Leb(n)
    case EMap(n) => [MAP] + Leb(n)
    case EKey(key) => Sized(key)
    case EEnd => []
  }

  function TapeBytes(evs: seq<Event>): Text {
    if evs == [] then [] else EventBytes(evs[0]) + TapeBytes(evs[1..])
  }

  class TapeSink {
    var buf: Text

    constructor ()
      ensures buf == []
    {
      buf := [];
    }

    /** The byte that is pushed while n has more than seven bits, then the last. */
    method PutLeb(n: nat)
      modifies this
      ensures buf == old(buf) + Leb(n)
    {
      var left := n;
      while left >= 0x80
        invariant buf + Leb(left) == old(buf) + Leb(n)
        decreases left
      {
        Regroup(buf, [left % 0x80 + 0x80], Leb(left / 0x80));
        buf := buf + [left % 0x80 + 0x80];
        left := left / 0x80;
      }
      buf := buf + [left];
    }

    method PutBody(tag: Byte, text: Text)
      modifies this
      ensures buf == old(buf) + ([tag] + Sized(text))
    {
      Regroup(buf, [tag], Leb(|text|));
      Regroup(buf, [tag] + Leb(|text|), text);
      Regroup([tag], Leb(|text|), text);
      buf := buf + [tag];
      PutLeb(|text|);
      buf := buf + text;
    }

    method PutCount(tag: Byte, n: nat)
      modifies this
      ensures buf == old(buf) + ([tag] + Leb(n))
    {
      Regroup(buf, [tag], Leb(n));
      buf := buf + [tag];
      PutLeb(n);
    }

    method Put(ev: Event)
      modifies this
      ensures buf == old(buf) + EventBytes(ev)
    {
      match ev
      case ENull => buf := buf + [NULL];
      case EBool(b) => buf := buf + [BOOL, if b then 1 else 0];
      case ENumber(text) => PutBody(NUMBER, text);
      case EText(text) => PutBody(STRING, text);
      case EBytes(body) => PutBody(BYTES, body);
      case EList(n) => PutCount(LIST, n);
      case EMap(n) => PutCount(MAP, n);
      case EKey(key) =>
        Regroup(buf, Leb(|key|), key);
        PutLeb(|key|);
        buf := buf + key;
      case EEnd =>
    }

    method PutAll(evs: seq<Event>)
      modifies this
      ensures buf == old(buf) + TapeBytes(evs)
    {
      for i := 0 to |evs|
        invariant buf + TapeBytes(evs[i..]) == old(buf) + TapeBytes(evs)
      {
        assert evs[i..][1..] == evs[i + 1..];
        Regroup(buf, EventBytes(evs[i]), TapeBytes(evs[i + 1..]));
        Put(evs[i]);
      }
    }
  }

  lemma {:induction false} TapeBytesBoth(a: seq<Event>, b: seq<Event>)
    ensures TapeBytes(a + b) == TapeBytes(a) + TapeBytes(b)
  {
    if a == [] {
      assert a + b == b;
    } else {
      assert (a + b)[1..] == a[1..] + b;
      TapeBytesBoth(a[1..], b);
    }
  }

  /** The bytes of a tree's events are the tree's encoding. */
  lemma {:induction false} TapeWritesEnc(t: Tree)
    requires NoAbsent(t)
    ensures TapeBytes(EventsOf(t)) == Enc(t)
    decreases t, 1
  {
    match t
    case List(items) =>
      var head, body := [EList(|items|)], ItemEvents(items);
      ItemsWriteEnc(items);
      TapeBytesBoth(head, body);
      TapeBytesBoth(head + body, [EEnd]);
    case Map(entries) =>
      var head, body := [EMap(|entries|)], EntryEvents(entries);
      EntriesWriteEnc(entries);
      TapeBytesBoth(head, body);
      TapeBytesBoth(head + body, [EEnd]);
    case _ =>
  }

  lemma {:induction false} ItemsWriteEnc(items: seq<Tree>)
    requires forall i :: 0 <= i < |items| ==> NoAbsent(items[i])
    ensures TapeBytes(ItemEvents(items)) == EncItems(items)
    decreases items, 0
  {
    if items != [] {
      TapeWritesEnc(items[0]);
      ItemsWriteEnc(items[1..]);
      TapeBytesBoth(EventsOf(items[0]), ItemEvents(items[1..]));
    }
  }

  lemma {:induction false} EntriesWriteEnc(entries: seq<Entry>)
    requires forall i :: 0 <= i < |entries| ==> NoAbsent(entries[i].value)
    ensures TapeBytes(EntryEvents(entries)) == EncEntries(entries)
    decreases entries, 0
  {
    if entries != [] {
      var key, value := [EKey(entries[0].key)], EventsOf(entries[0].value);
      TapeWritesEnc(entries[0].value);
      EntriesWriteEnc(entries[1..]);
      TapeBytesBoth(key, value);
      TapeBytesBoth(key + value, EntryEvents(entries[1..]));
    }
  }

  // --- treeSink, on values -----------------------------------------------------------

  /** A container being filled, and the key that waits for a value. */
  datatype Partial = Partial(container: Tree, key: Text)

  /** What the sink holds: the finished root, or the containers open, outermost first. */
  datatype Building = Building(root: Tree, open: seq<Partial>)

  predicate IsContainer(t: Tree) {
    t.List? || t.Map?
  }

  ghost predicate Proper(b: Building) {
    (b.open != [] ==> b.root == Absent)
    && forall i :: 0 <= i < |b.open| ==> IsContainer(b.open[i].container)
  }

  function Added(container: Tree, key: Text, value: Tree): Tree
    requires IsContainer(container)
  {
    if container.List? then List(container.items + [value]) else Map(SetEntry(container.entries, key, value))
  }

  /** A finished value moved where it goes. */
  function Place(b: Building, t: Tree): (r: Building)
    requires Proper(b)
    ensures Proper(r) && |r.open| == |b.open|
  {
    if b.open == [] then Building(t, [])
    else
      var last := |b.open| - 1;
      var top := b.open[last];
      Building(b.root, b.open[last := Partial(Added(top.container, top.key, t), top.key)])
  }

  function LeafOf(ev: Event): Tree
    requires !(ev.EList? || ev.EMap? || ev.EKey? || ev.EEnd?)
  {
    match ev
    case ENull => Null
    case EBool(b) => Bool(b)
    case ENumber(text) => Number(text)
    case EText(text) => Str(text)
    case EBytes(body) => Bytes(body)
  }

  function Next(b: Building, ev: Event): (r: Building)
    requires Proper(b) && (ev.EKey? || ev.EEnd? ==> b.open != [])
    ensures Proper(r)
    ensures Shift(|b.open|, ev) == Some(|r.open|)
  {
    match ev
    case EList(_) => Building(Absent, b.open + [Partial(List([]), [])])
    case EMap(_) => Building(Absent, b.open + [Partial(Map([]), [])])
    case EKey(key) => b.(open := b.open[|b.open| - 1 := b.open[|b.open| - 1].(key := key)])
    case EEnd => Place(b.(open := b.open[..|b.open| - 1]), b.open[|b.open| - 1].container)
    case _ => Place(b, LeafOf(ev))
  }

  ghost function Run(b: Building, evs: seq<Event>): (r: Building)
    requires Proper(b) && OpenAfter(|b.open|, evs).Some?
    ensures Proper(r) && OpenAfter(|b.open|, evs) == Some(|r.open|)
    decreases evs
  {
    if evs == [] then b else Run(Next(b, evs[0]), evs[1..])
  }

  lemma {:induction false} RunBoth(b: Building, xs: seq<Event>, ys: seq<Event>)
    requires Proper(b) && OpenAfter(|b.open|, xs + ys).Some?
    ensures OpenAfter(|b.open|, xs).Some? && OpenAfter(|Run(b, xs).open|, ys).Some?
    ensures Run(b, xs + ys) == Run(Run(b, xs), ys)
    decreases xs
  {
    OpenAfterBoth(|b.open|, xs, ys);
    if xs == [] {
      assert xs + ys == ys;
    } else {
      assert (xs + ys)[1..] == xs[1..] + ys;
      RunBoth(Next(b, xs[0]), xs[1..], ys);
    }
  }

  ghost function WithTop(b: Building, container: Tree, key: Text): Building
    requires b.open != []
  {
    b.(open := b.open[|b.open| - 1 := Partial(container, key)])
  }

  /** Fed a tree's events, the sink puts that tree where a finished value goes. */
  lemma {:induction false} SinkBuildsTree(b: Building, t: Tree)
    requires Proper(b) && NoAbsent(t) && DistinctKeys(t)
    ensures OpenAfter(|b.open|, EventsOf(t)).Some? && Run(b, EventsOf(t)) == Place(b, t)
    decreases t, 1
  {
    TreesBalance(t, |b.open|);
    match t
    case List(items) =>
      var inner := Next(b, EList(|items|));
      ItemsBalance(items, |inner.open|);
      ItemsBuild(inner, [], items);
      assert [] + items == items;
      ContainerBuilds(b, EList(|items|), ItemEvents(items), t, []);
    case Map(entries) =>
      var inner := Next(b, EMap(|entries|));
      EntriesBalance(entries, |inner.open|);
      EntriesBuild(inner, [], entries);
      assert [] + entries == entries;
      var last := if entries == [] then [] else entries[|entries| - 1].key;
      ContainerBuilds(b, EMap(|entries|), EntryEvents(entries), t, last);
    case _ =>
  }

  lemma ContainerBuilds(b: Building, start: Event, body: seq<Event>, t: Tree, key: Text)
    requires Proper(b) && (start.EList? || start.EMap?) && IsContainer(t)
    requires var inner := Next(b, start);
      OpenAfter(|inner.open|, body) == Some(|inner.open|) && Run(inner, body) == WithTop(inner, t, key)
    requires OpenAfter(|b.open|, [start] + body + [EEnd]).Some?
    ensures Run(b, [start] + body + [EEnd]) == Place(b, t)
  {
    var inner := Next(b, start);
    assert [start] + body + [EEnd] == [start] + (body + [EEnd]);
    var all := [start] + (body + [EEnd]);
    assert all[0] == start && all[1..] == body + [EEnd];
    assert OpenAfter(|inner.open|, body + [EEnd]).Some?;
    RunBoth(inner, body, [EEnd]);
    EndPlaces(b, inner, t, key);
  }

  lemma EndPlaces(b: Building, inner: Building, t: Tree, key: Text)
    requires Proper(b) && IsContainer(t) && inner.root.Absent?
    requires |inner.open| == |b.open| + 1 && inner.open[..|b.open|] == b.open
    ensures Proper(WithTop(inner, t, key)) && OpenAfter(|inner.open|, [EEnd]).Some?
    ensures Run(WithTop(inner, t, key), [EEnd]) == Place(b, t)
  {
    var filled := WithTop(inner, t, key);
    assert filled.open[..|filled.open| - 1] == b.open;
    assert forall i :: 0 <= i < |b.open| ==> filled.open[i] == b.open[i];
    var closed := Next(filled, EEnd);
    assert filled.open[|filled.open| - 1].container == t;
    assert filled.(open := b.open) == Building(Absent, b.open);
    assert closed == Place(Building(Absent, b.open), t);
    if b.open != [] { assert b.root == Absent; }
    OneEvent(filled, EEnd);
  }

  lemma OneEvent(b: Building, ev: Event)
    requires Proper(b) && OpenAfter(|b.open|, [ev]).Some?
    ensures Run(b, [ev]) == Next(b, ev)
  {
    assert [ev][1..] == [];
  }

  lemma {:induction false} ItemsBuild(b: Building, done: seq<Tree>, items: seq<Tree>)
    requires Proper(b) && b.open != [] && b.open[|b.open| - 1].container == List(done)
    requires forall i :: 0 <= i < |items| ==> NoAbsent(items[i]) && DistinctKeys(items[i])
    ensures OpenAfter(|b.open|, ItemEvents(items)).Some?
    ensures Run(b, ItemEvents(items)) == WithTop(b, List(done + items), b.open[|b.open| - 1].key)
    decreases items, 0
  {
    ItemsBalance(items, |b.open|);
    if items == [] {
      assert done + items == done;
    } else {
      var next := Place(b, items[0]);
      SinkBuildsTree(b, items[0]);
      RunBoth(b, EventsOf(items[0]), ItemEvents(items[1..]));
      ItemsBuild(next, done + [items[0]], items[1..]);
      Regroup(done, [items[0]], items[1..]);
      assert [items[0]] + items[1..] == items;
    }
  }

  lemma {:induction false} SetEntryAppends(entries: seq<Entry>, key: Text, value: Tree)
    requires forall i :: 0 <= i < |entries| ==> entries[i].key != key
    ensures SetEntry(entries, key, value) == entries + [Entry(key, value)]
  {
    if entries != [] {
      SetEntryAppends(entries[1..], key, value);
    }
  }

  /** The entries after those done: their keys are new, and one another's never. */
  ghost predicate KeysAreNew(done: seq<Entry>, entries: seq<Entry>) {
    forall i, j :: 0 <= i < j < |done + entries| ==> (done + entries)[i].key != (done + entries)[j].key
  }

  lemma {:induction false} NewKeyGoesLast(done: seq<Entry>, entries: seq<Entry>)
    requires entries != [] && KeysAreNew(done, entries)
    ensures SetEntry(done, entries[0].key, entries[0].value) == done + [entries[0]]
    ensures done + [entries[0]] + entries[1..] == done + entries && KeysAreNew(done + [entries[0]], entries[1..])
  {
    var e := entries[0];
    forall i | 0 <= i < |done| ensures done[i].key != e.key {
      assert (done + entries)[i] == done[i] && (done + entries)[|done|] == e;
    }
    SetEntryAppends(done, e.key, e.value);
    assert done + [e] + entries[1..] == done + entries;
  }

  lemma {:induction false} EntriesBuild(b: Building, done: seq<Entry>, entries: seq<Entry>)
    requires Proper(b) && b.open != [] && b.open[|b.open| - 1].container == Map(done)
    requires forall i :: 0 <= i < |entries| ==> NoAbsent(entries[i].value) && DistinctKeys(entries[i].value)
    requires KeysAreNew(done, entries)
    ensures OpenAfter(|b.open|, EntryEvents(entries)).Some?
    ensures Run(b, EntryEvents(entries))
         == WithTop(b, Map(done + entries),
                    if entries == [] then b.open[|b.open| - 1].key else entries[|entries| - 1].key)
    decreases entries, 0
  {
    EntriesBalance(entries, |b.open|);
    hide KeysAreNew, NoAbsent, DistinctKeys, Proper, Run, OpenAfter, EventsOf, SetEntry;
    if entries == [] {
      assert done + entries == done;
      NothingBuilt(b);
    } else {
      var e, tail := entries[0], entries[1..];
      var next := WithTop(b, Map(done + [e]), e.key);
      NewKeyGoesLast(done, entries);
      EntriesBalance(tail, |b.open|);
      EntryBuilds(b, done, e, EntryEvents(tail));
      EntriesBuild(next, done + [e], tail);
      TopTwice(b, Map(done + [e]), e.key, Map(done + entries), entries[|entries| - 1].key);
      if tail == [] { assert done + entries == done + [e]; }
    }
  }

  lemma TopTwice(b: Building, first: Tree, k: Text, container: Tree, key: Text)
    requires b.open != []
    ensures WithTop(WithTop(b, first, k), container, key) == WithTop(b, container, key)
  {
  }

  lemma NothingBuilt(b: Building)
    requires Proper(b) && b.open != []
    ensures Run(b, []) == b == WithTop(b, b.open[|b.open| - 1].container, b.open[|b.open| - 1].key)
  {
  }

  /** One entry's events put it last in the innermost container, and the rest follow. */
  lemma {:induction false} EntryBuilds(b: Building, done: seq<Entry>, e: Entry, rest: seq<Event>)
    requires Proper(b) && b.open != [] && b.open[|b.open| - 1].container == Map(done)
    requires NoAbsent(e.value) && DistinctKeys(e.value) && OpenAfter(|b.open|, rest).Some?
    requires SetEntry(done, e.key, e.value) == done + [e]
    ensures var next := WithTop(b, Map(done + [e]), e.key);
      var evs := [EKey(e.key)] + EventsOf(e.value) + rest;
      Proper(next) && OpenAfter(|b.open|, evs).Some? && Run(b, evs) == Run(next, rest)
    decreases e, 2
  {
    var keyed, evs := Next(b, EKey(e.key)), [EKey(e.key)] + EventsOf(e.value) + rest;
    assert evs[1..] == EventsOf(e.value) + rest;
    SinkBuildsTree(keyed, e.value);
    TreesBalance(e.value, |b.open|);
    OpenAfterBoth(|b.open|, EventsOf(e.value), rest);
    RunBoth(keyed, EventsOf(e.value), rest);
    assert Place(keyed, e.value) == WithTop(b, Map(done + [e]), e.key);
  }

  // --- treeSink, in memory ------------------------------------------------------------

  /** An allocation, told from every other. */
  type Token = nat

  datatype Frame = Frame(tmp: Token, isMap: bool, key: Text)

  /** The tree built in C memory, a container at a time. held[0] is what the root node
      holds and held[i + 1] what the scratch node of the i-th open container does: so
      held[i] is also the i-th container, which is built in the node around it. */
  class TreeSink {
    var held: seq<Tree>
    var open: seq<Frame>
    var next: Token
    ghost var calloced: set<Token>
    ghost var freed: set<Token>

    /** Every scratch node taken is the one of a container still open, or was freed. */
    ghost predicate Accounted()
      reads this
    {
      && |held| == |open| + 1
      && (forall i :: 0 <= i < |open| ==> if open[i].isMap then held[i].Map? else held[i].List?)
      && freed <= calloced && (forall p :: p in calloced ==> p < next)
      && (forall i, j :: 0 <= i < j < |open| ==> open[i].tmp != open[j].tmp)
      && (forall i :: 0 <= i < |open| ==> open[i].tmp in calloced && open[i].tmp !in freed)
      && (forall p :: p in calloced && p !in freed ==> exists i :: 0 <= i < |open| && open[i].tmp == p)
    }

    /** Between events the innermost scratch node is empty. */
    ghost predicate Valid()
      reads this
    {
      Accounted() && (open != [] ==> held[|open|].Absent?)
    }

    /** What it has built, as a value. */
    ghost function Built(): (b: Building)
      requires Accounted()
      reads this
      ensures Proper(b) && |b.open| == |open|
    {
      var keys := open;
      var around := held;
      Building(if open == [] then held[0] else Absent,
               seq(|open|, i requires 0 <= i < |keys| && i < |around| => Partial(around[i], keys[i].key)))
    }

    constructor ()
      ensures Valid() && open == [] && calloced == {} && freed == {} && held == [Absent]
    {
      held, open, next := [Absent], [], 0;
      calloced, freed := {}, {};
    }

    /** What the innermost node holds, moved into the container it is the scratch node
        of; moved says the native call took it. The node is left empty either way. */
    method Placed(moved: bool) returns (ok: bool)
      requires Accounted()
      modifies this
      ensures Valid() && calloced == old(calloced) && freed == old(freed) && open == old(open)
      ensures ok == (moved || open == [])
      ensures ok ==> Built() == Place(Building(Absent, old(Built()).open), old(held[|open|]))
    {
      if open == [] {
        return true;
      }
      var last := |open| - 1;
      if moved {
        held := held[last := Added(held[last], open[last].key, held[last + 1])];
      }
      held := held[last + 1 := Absent];
      return moved;
    }

    method Leaf(t: Tree, built: bool, moved: bool) returns (ok: bool)
      requires Valid()
      modifies this
      ensures Valid() && calloced == old(calloced) && freed == old(freed) && open == old(open)
      ensures ok == (built && (moved || open == []))
      ensures ok ==> Built() == Place(old(Built()), t)
    {
      if !built {
        return false;
      }
      ghost var before := Built();
      held := held[|open| := t];
      assert Built().open == before.open;
      ok := Placed(moved);
    }

    method Opened(isMap: bool, built: bool) returns (ok: bool)
      requires Valid()
      modifies this
      ensures Valid() && old(calloced) <= calloced && freed == old(freed)
      ensures ok == built
      ensures ok ==> Built() == Building(Absent, old(Built()).open + [Partial(if isMap then Map([]) else List([]), [])])
    {
      if !built {
        return false;
      }
      held := held[|open| := if isMap then Map([]) else List([])] + [Absent];
      open := open + [Frame(next, isMap, [])];
      calloced, next := calloced + {next}, next + 1;
      assert open[|open| - 1].tmp == next - 1;
      forall p | p in calloced && p !in freed ensures exists i :: 0 <= i < |open| && open[i].tmp == p {
        if p != next - 1 {
          var i :| 0 <= i < |old(open)| && old(open)[i].tmp == p;
          assert open[i].tmp == p;
        }
      }
      return true;
    }

    method SetKey(key: Text)
      requires Valid() && open != []
      modifies this
      ensures Valid() && calloced == old(calloced) && freed == old(freed)
      ensures Built() == Next(old(Built()), EKey(key))
    {
      open := open[|open| - 1 := open[|open| - 1].(key := key)];
    }

    /** native.Free of the innermost container's scratch node, emptied before: each
        scratch node comes here once. */
    method FreeInnermost()
      requires Valid() && open != []
      modifies this
      ensures Accounted() && calloced == old(calloced) && freed == old(freed) + {old(open)[|old(open)| - 1].tmp}
      ensures open == old(open)[..|old(open)| - 1] && held == old(held)[..|old(open)|]
    {
      var last := |open| - 1;
      assert open[last].tmp !in freed;
      freed := freed + {open[last].tmp};
      held, open := held[..last + 1], open[..last];
      forall p | p in calloced && p !in freed ensures exists i :: 0 <= i < |open| && open[i].tmp == p {
        var i :| 0 <= i < |old(open)| && old(open)[i].tmp == p;
        assert open[i].tmp == p;
      }
    }

    method End(moved: bool) returns (ok: bool)
      requires Valid() && open != []
      modifies this
      ensures Valid() && calloced == old(calloced)
      ensures ok == (moved || |old(open)| == 1)
      ensures ok ==> Built() == Next(old(Built()), EEnd)
    {
      ghost var before := Built();
      FreeInnermost();
      assert Built().open == before.open[..|open|];
      assert before.open[|open|].container == held[|open|];
      ok := Placed(moved);
    }

    /** One event; built and moved say what its native calls answer. */
    method Put(ev: Event, built: bool, moved: bool) returns (ok: bool)
      requires Valid() && Shift(|open|, ev).Some?
      modifies this
      ensures Valid() && old(calloced) <= calloced
      ensures ok ==> Built() == Next(old(Built()), ev)
      ensures built && moved ==> ok
    {
      match ev
      case EList(_) => ok := Opened(false, built);
      case EMap(_) => ok := Opened(true, built);
      case EKey(key) =>
        SetKey(key);
        ok := true;
      case EEnd => ok := End(moved);
      case _ => ok := Leaf(LeafOf(ev), built, moved);
    }

    /** No scratch node is left: each one still open is emptied and freed once, from the last
        opened to the first, and the root is not touched. */
    method Abandon()
      requires Valid()
      modifies this
      ensures Valid() && open == [] && freed == calloced == old(calloced)
      ensures held[0] == old(held[0])
    {
      while open != []
        invariant Accounted() && calloced == old(calloced)
        invariant held[0] == old(held[0])
        decreases |open|
      {
        held := held[|open| := Absent];
        FreeInnermost();
      }
    }
  }

  /** writeGo: feeds the events the encoder sent to a sink, encoded saying whether it got
      to the end, and refusedAt naming the event whose native call refuses, if any; built
      says which of its two calls. On any failure the root is left absent. */
  method WriteGo(evs: seq<Event>, encoded: bool, refusedAt: nat, built: bool) returns (ok: bool, s: TreeSink)
    requires OpenAfter(0, evs).Some? && (encoded ==> OpenAfter(0, evs) == Some(0))
    ensures s.Valid() && s.open == [] && s.freed == s.calloced
    ensures refusedAt >= |evs| ==> ok == encoded
    ensures ok ==> encoded && s.held[0] == Run(Building(Absent, []), evs).root
    ensures !ok ==> s.held[0] == Absent
  {
    s := new TreeSink();
    ok := true;
    var i := 0;
    while ok && i < |evs|
      invariant i <= |evs| && s.Valid() && fresh(s) && (i < |evs| && refusedAt >= |evs| ==> ok)
      invariant refusedAt >= |evs| ==> ok
      invariant ok ==> OpenAfter(|s.open|, evs[i..]) == OpenAfter(0, evs)
      invariant ok ==> Run(s.Built(), evs[i..]) == Run(Building(Absent, []), evs)
      invariant !ok ==> i > 0
      decreases |evs| - i, ok
    {
      assert evs[i..][0] == evs[i] && evs[i..][1..] == evs[i + 1..];
      ok := s.Put(evs[i], i != refusedAt || built, i != refusedAt || !built);
      i := i + 1;
    }
    if !ok || !encoded {
      s.Abandon();
      s.held := s.held[0 := Absent];
      ok := false;
    }
  }

  /** The one event stream gives both sinks the one value: the tree built is the tree
      described, and its wire encoding is the bytes written. */
  lemma SinksAgree(t: Tree)
    requires NoAbsent(t) && DistinctKeys(t)
    ensures OpenAfter(0, EventsOf(t)) == Some(0)
    ensures var built := Run(Building(Absent, []), EventsOf(t)).root;
      built == t && Enc(built) == TapeBytes(EventsOf(t))
  {
    SinkBuildsTree(Building(Absent, []), t);
    TreesBalance(t, 0);
    TapeWritesEnc(t);
  }
}
