/** The events the encoder hands to a sink: one tree's, in order. */
module Events {
  import opened Texts
  import opened Wire

  /** What a tree is made of, read from left to right: a container opens with how many it
      holds and closes with EEnd, and a map's items follow their keys. */
  datatype Event =
    | ENull
    | EBool(flag: bool)
    | ENumber(text: Text)
    | EText(text: Text)
    | EBytes(body: Text)
    | EList(n: nat)
    | EMap(n: nat)
    | EKey(key: Text)
    | EEnd

  /** No node of t is the absent marker, which no event writes. */
  ghost predicate NoAbsent(t: Tree) {
    match t
    case Absent => false
    case List(items) => forall i :: 0 <= i < |items| ==> NoAbsent(items[i])
    case Map(entries) => forall i :: 0 <= i < |entries| ==> NoAbsent(entries[i].value)
    case _ => true
  }

  ghost function EventsOf(t: Tree): seq<Event>
    requires NoAbsent(t)
    decreases t, 1
  {
    match t
    case Null => [ENull]
    case Bool(b) => [EBool(b)]
    case Number(text) => [ENumber(text)]
    case Str(text) => [EText(text)]
    case Bytes(body) => [EBytes(body)]
    case List(items) => [EList(|items|)] + ItemEvents(items) + [EEnd]
    case Map(entries) => [EMap(|entries|)] + EntryEvents(entries) + [EEnd]
  }

  ghost function ItemEvents(items: seq<Tree>): seq<Event>
    requires forall i :: 0 <= i < |items| ==> NoAbsent(items[i])
    decreases items, 0
  {
    if items == [] then [] else EventsOf(items[0]) + ItemEvents(items[1..])
  }

  ghost function EntryEvents(entries: seq<Entry>): seq<Event>
    requires forall i :: 0 <= i < |entries| ==> NoAbsent(entries[i].value)
    decreases entries, 0
  {
    if entries == [] then []
    else [EKey(entries[0].key)] + EventsOf(entries[0].value) + EntryEvents(entries[1..])
  }

  // --- events a sink can take ------------------------------------------------------

  /** How many containers are open after ev; None for a key or an end with none open. */
  function Shift(open: nat, ev: Event): Option<nat> {
    match ev
    case EList(_) => Some(open + 1)
    case EMap(_) => Some(open + 1)
    case EKey(_) => if open == 0 then None else Some(open)
    case EEnd => if open == 0 then None else Some(open - 1)
    case _ => Some(open)
  }

  ghost function OpenAfter(open: nat, evs: seq<Event>): Option<nat>
    decreases |evs|
  {
    if evs == [] then Some(open)
    else match Shift(open, evs[0])
      case None => None
      case Some(n) => OpenAfter(n, evs[1..])
  }

  lemma {:induction false} OpenAfterBoth(open: nat, a: seq<Event>, b: seq<Event>)
    ensures OpenAfter(open, a + b)
         == match OpenAfter(open, a) case None => None case Some(n) => OpenAfter(n, b)
    decreases a
  {
    if a == [] {
      assert a + b == b;
    } else {
      assert (a + b)[1..] == a[1..] + b;
      var next := Shift(open, a[0]);
      if next.Some? { OpenAfterBoth(next.value, a[1..], b); }
    }
  }

  /** A tree's events leave open what was open. */
  lemma {:induction false} TreesBalance(t: Tree, open: nat)
    requires NoAbsent(t)
    ensures OpenAfter(open, EventsOf(t)) == Some(open)
    decreases t, 1
  {
    match t
    case List(items) =>
      ItemsBalance(items, open + 1);
      OpenAfterBoth(open, [EList(|items|)], ItemEvents(items));
      OpenAfterBoth(open, [EList(|items|)] + ItemEvents(items), [EEnd]);
    case Map(entries) =>
      EntriesBalance(entries, open + 1);
      OpenAfterBoth(open, [EMap(|entries|)], EntryEvents(entries));
      OpenAfterBoth(open, [EMap(|entries|)] + EntryEvents(entries), [EEnd]);
    case _ =>
  }

  lemma {:induction false} ItemsBalance(items: seq<Tree>, open: nat)
    requires forall i :: 0 <= i < |items| ==> NoAbsent(items[i])
    ensures OpenAfter(open, ItemEvents(items)) == Some(open)
    decreases items, 0
  {
    if items != [] {
      TreesBalance(items[0], open);
      ItemsBalance(items[1..], open);
      OpenAfterBoth(open, EventsOf(items[0]), ItemEvents(items[1..]));
    }
  }

  lemma {:induction false} EntriesBalance(entries: seq<Entry>, open: nat)
    requires open > 0 && forall i :: 0 <= i < |entries| ==> NoAbsent(entries[i].value)
    ensures OpenAfter(open, EntryEvents(entries)) == Some(open)
    decreases entries, 0
  {
    if entries != [] {
      var key, value := [EKey(entries[0].key)], EventsOf(entries[0].value);
      TreesBalance(entries[0].value, open);
      EntriesBalance(entries[1..], open);
      OpenAfterBoth(open, key, value);
      OpenAfterBoth(open, key + value, EntryEvents(entries[1..]));
    }
  }
}
