/** One call into a slot this side serves: what is handed over while it is received, and
    what becomes of it whether the method runs, is refused or panics. */
module Served {
  import opened Texts

  type Thing = nat

  /** Why an argument, the target or the call is refused; code stands for the method's own. */
  datatype Why = NullArgument | NoAllocator | NotMoved | Unreadable | NotCallable | Gone | Failed(code: nat)

  datatype Result<T> = Ok(value: T) | Err(why: Why)

  datatype Item = Closed(thing: Thing) | After(turn: nat) | Freed(block: nat)

  /** refused is the first refusal met. next numbers what is handed over, made what is made for
      the call. taken are what closes if the method never runs; closed what Close was called
      on, which closes once; lost what was handed over and never received. done is what was
      closed, run and freed, in order. */
  datatype State = State(
    ran: bool,
    open: bool,
    refused: Option<Why>,
    taken: seq<Thing>,
    after: seq<nat>,
    blocks: seq<nat>,
    next: nat,
    made: nat,
    closed: set<Thing>,
    lost: set<Thing>,
    done: seq<Item>)

  const BEGUN: State := State(false, true, None, [], [], [], 0, 0, {}, {}, [])

  datatype Event =
    | Taken(isNull: bool, core: bool, moves: bool)
    | Decode(isNull: bool, core: bool, decodes: bool)
    | TakenObject(callable: bool)
    | Lent(isNull: bool, value: bool)
    | Borrowed(isNull: bool, value: bool)
    | Ran

  /** Close closes once. */
  function Close(s: State, thing: Thing): State {
    if thing in s.closed then s
    else s.(closed := s.closed + {thing}, done := s.done + [Closed(thing)])
  }

  function CloseAll(s: State, things: seq<Thing>): State
    decreases |things|
  {
    if things == [] then s else CloseAll(Close(s, things[0]), things[1..])
  }

  /** A refusal already met stays the one answered. */
  function Refuse(s: State, why: Why): State {
    if s.refused.Some? then s else s.(refused := Some(why))
  }

  /** What the call makes of a step of its body. */
  function Apply(s: State, ev: Event): State {
    match ev
    case Taken(isNull, core, moves) =>
      if isNull then Refuse(s, NullArgument)
      else if !core then Refuse(s, NoAllocator).(next := s.next + 1, lost := s.lost + {s.next})
      else if !moves then Refuse(Close(s, s.next), NotMoved).(next := s.next + 1)
      else s.(taken := s.taken + [s.next], next := s.next + 1)
    case Decode(isNull, core, decodes) =>
      if isNull then Refuse(s, NullArgument)
      else if !core then Refuse(s, NoAllocator).(next := s.next + 1, lost := s.lost + {s.next})
      else
        var t := Close(s, s.next).(taken := s.taken + [s.next], next := s.next + 1);
        if decodes then t else Refuse(t, Unreadable)
    case TakenObject(callable) =>
      if !callable then Refuse(Close(s, s.next), NotCallable).(next := s.next + 1)
      else s.(taken := s.taken + [s.next], next := s.next + 1)
    case Lent(isNull, value) =>
      if isNull || value then s
      else s.(blocks := s.blocks + [s.made], after := s.after + [s.made], made := s.made + 1)
    case Borrowed(isNull, value) =>
      if isNull || value then s else s.(blocks := s.blocks + [s.made], made := s.made + 1)
    case Ran => s.(ran := true)
  }

  function Run(s: State, evs: seq<Event>): State
    decreases |evs|
  {
    if evs == [] then s else Run(Apply(s, evs[0]), evs[1..])
  }

  function Afters(after: seq<nat>): seq<Item> {
    if after == [] then [] else [After(after[|after| - 1])] + Afters(after[..|after| - 1])
  }

  function Frees(blocks: seq<nat>): seq<Item> {
    if blocks == [] then [] else Frees(blocks[..|blocks| - 1]) + [Freed(blocks[|blocks| - 1])]
  }

  /** The end of the call: what the method never came to own closed, what runs after it run
      last first, the views ended and the blocks freed. */
  function Ended(s: State): State {
    var t := if s.ran then s else CloseAll(s, s.taken);
    t.(open := false, done := t.done + Afters(s.after) + Frees(s.blocks), taken := [], after := [], blocks := [])
  }

  class Served {
    var ran: bool
    var open: bool
    var refused: Option<Why>
    var taken: seq<Thing>
    var after: seq<nat>
    var blocks: seq<nat>
    var next: nat
    var made: nat
    var closed: set<Thing>
    ghost var lost: set<Thing>
    ghost var done: seq<Item>

    ghost function Now(): State
      reads this
    {
      State(ran, open, refused, taken, after, blocks, next, made, closed, lost, done)
    }

    constructor ()
      ensures Now() == BEGUN
    {
      ran, open, refused, taken, after, blocks, next, made, closed := false, true, None, [], [], [], 0, 0, {};
      lost, done := {}, [];
    }

    method CloseThing(thing: Thing)
      modifies this`closed, this`done
      ensures Now() == Close(old(Now()), thing)
    {
      if thing !in closed {
        closed := closed + {thing};
        done := done + [Closed(thing)];
      }
    }

    /** Only the first refusal is kept. */
    method KeepRefusal(why: Why)
      modifies this`refused
      ensures Now() == Refuse(old(Now()), why)
    {
      if refused.None? { refused := Some(why); }
    }

    /** The tree received, unless it is null, there is no allocator to receive it into, or,
        moved home, it cannot be. */
    method ReceiveTaken(isNull: bool, core: bool, home: bool, moves: bool) returns (v: Result<Thing>)
      modifies this`taken, this`next, this`closed, this`done, this`lost
      ensures v == if isNull then Err(NullArgument) else if !core then Err(NoAllocator)
                   else if home && !moves then Err(NotMoved) else Ok(old(next))
      ensures v.Ok? ==> Now() == old(Now()).(taken := old(taken) + [old(next)], next := old(next) + 1)
      ensures v.Err? && isNull ==> Now() == old(Now())
      ensures v.Err? && !isNull && !core ==>
        Now() == old(Now()).(next := old(next) + 1, lost := old(lost) + {old(next)})
      ensures v.Err? && !isNull && core ==> Now() == Close(old(Now()), old(next)).(next := old(next) + 1)
    {
      if isNull { return Err(NullArgument); }
      var thing := next;
      next := next + 1;
      if !core {
        lost := lost + {thing};
        return Err(NoAllocator);
      }
      if home && !moves {
        CloseThing(thing);
        return Err(NotMoved);
      }
      taken := taken + [thing];
      v := Ok(thing);
    }

    /** A tree handed over; a refusal is kept, not answered, so that what is handed over after
        it is received too. */
    method Taken(isNull: bool, core: bool, moves: bool) returns (v: Option<Thing>)
      modifies this
      ensures Now() == Apply(old(Now()), Event.Taken(isNull, core, moves))
      ensures v == if isNull || !core || !moves then None else Some(old(next))
    {
      var r := ReceiveTaken(isNull, core, true, moves);
      if r.Err? {
        KeepRefusal(r.why);
        return None;
      }
      v := Some(r.value);
    }

    /** A tree handed over and read, then closed where it stands. */
    method Decode(isNull: bool, core: bool, decodes: bool)
      modifies this
      ensures Now() == Apply(old(Now()), Event.Decode(isNull, core, decodes))
    {
      var r := ReceiveTaken(isNull, core, false, true);
      if r.Err? {
        KeepRefusal(r.why);
      } else {
        if !decodes { KeepRefusal(Unreadable); }
        CloseThing(r.value);
      }
    }

    method TakenObject(callable: bool)
      modifies this
      ensures Now() == Apply(old(Now()), Event.TakenObject(callable))
    {
      var thing := next;
      next := next + 1;
      if callable {
        taken := taken + [thing];
      } else {
        CloseThing(thing);
        KeepRefusal(NotCallable);
      }
    }

    /** A node around a borrowed map or list, and for a lent one its contents copied back after. */
    method NodeOver(isNull: bool, value: bool, lent: bool)
      modifies this
      ensures Now() == Apply(old(Now()), if lent then Event.Lent(isNull, value) else Event.Borrowed(isNull, value))
    {
      if isNull || value { return; }
      blocks := blocks + [made];
      if lent { after := after + [made]; }
      made := made + 1;
    }

    /** What the call's ctx names, after any refusal met before. */
    method Target(named: Option<Thing>) returns (r: Result<Thing>)
      ensures r == if refused.Some? then Err(refused.value) else if named.Some? then Ok(named.value) else Err(Gone)
    {
      if refused.Some? { return Err(refused.value); }
      return if named.Some? then Ok(named.value) else Err(Gone);
    }

    /** Whatever the body did and however it ended, finishes the call and answers what it
        failed with, if anything: the body's own failure, else the first refusal. */
    method Finish(failed: Option<Why>) returns (err: Option<Why>)
      modifies this
      ensures Now() == Ended(old(Now())) && err == if failed.Some? then failed else old(refused)
    {
      err := if failed.Some? then failed else refused;
      if !ran {
        for i := 0 to |taken|
          invariant taken == old(taken) && after == old(after) && blocks == old(blocks)
          invariant CloseAll(Now(), taken[i..]) == old(CloseAll(Now(), taken))
          invariant ran == old(ran) && open == old(open) && refused == old(refused)
          invariant next == old(next) && made == old(made) && lost == old(lost)
        {
          assert taken[i..][1..] == taken[i + 1..];
          CloseThing(taken[i]);
        }
      }
      Done();
    }

    method Done()
      modifies this
      ensures Now() == old(Now()).(open := false, taken := [], after := [], blocks := [],
                done := old(done) + Afters(old(after)) + Frees(old(blocks)))
    {
      var i := |after|;
      assert after[..i] == after;
      while i > 0
        invariant 0 <= i <= |after| && old(done) + Afters(after) == done + Afters(after[..i])
        invariant Now() == old(Now()).(done := done)
      {
        assert after[..i][..i - 1] == after[..i - 1] && after[..i][i - 1] == after[i - 1];
        Regroup(done, [After(after[i - 1])], Afters(after[..i - 1]));
        i := i - 1;
        done := done + [After(after[i])];
      }
      open := false;
      ghost var ran := done;
      for k := 0 to |blocks|
        invariant done == ran + Frees(blocks[..k])
        invariant Now() == old(Now()).(open := false, done := done)
      {
        assert blocks[..k + 1][..k] == blocks[..k];
        Regroup(ran, Frees(blocks[..k]), [Freed(blocks[k])]);
        done := done + [Freed(blocks[k])];
      }
      assert blocks[..|blocks|] == blocks;
      after, blocks, taken := [], [], [];
    }
  }

  // --- every call ------------------------------------------------------------------------

  function Count(done: seq<Item>, x: Item): nat {
    multiset(done)[x]
  }

  /** A thing handed over is closed already, still to be closed or owned, or lost. */
  ghost predicate Inv(s: State) {
    && (forall t :: 0 <= t < s.next <==> t in s.closed || t in s.lost || t in s.taken)
    && (forall t :: t in s.lost ==> t !in s.closed && t !in s.taken)
    && ClosedAre(s.done, s.closed)
  }

  ghost predicate ClosedAre(done: seq<Item>, closed: set<Thing>) {
    forall t: Thing :: Count(done, Closed(t)) == if t in closed then 1 else 0
  }

  lemma CloseKeeps(s: State, thing: Thing)
    requires ClosedAre(s.done, s.closed)
    ensures ClosedAre(Close(s, thing).done, Close(s, thing).closed)
  {
  }

  /** A thing received is closed, taken or lost from then on. */
  lemma ReceivedKeeps(s: State, e: State)
    requires Inv(s) && ClosedAre(e.done, e.closed) && e.next == s.next + 1
    requires e.closed == s.closed + (e.closed * {s.next}) && e.lost == s.lost + (e.lost * {s.next})
    requires e.taken == s.taken || e.taken == s.taken + [s.next]
    requires (s.next in e.lost) == (s.next !in e.closed && s.next !in e.taken)
    ensures Inv(e)
  {
    assert s.next in e.closed || s.next in e.taken || s.next in e.lost;
  }

  lemma {:induction false} StepKeeps(s: State, ev: Event)
    requires Inv(s)
    ensures Inv(Apply(s, ev))
  {
    hide ClosedAre;
    CloseKeeps(s, s.next);
    var e := Apply(s, ev);
    assert s.next !in s.closed && s.next !in s.taken && s.next !in s.lost;
    if e.next != s.next { ReceivedKeeps(s, e); }
  }

  lemma {:induction false} RunKeeps(s: State, evs: seq<Event>)
    requires Inv(s)
    ensures Inv(Run(s, evs))
    decreases |evs|
  {
    if evs != [] {
      StepKeeps(s, evs[0]);
      RunKeeps(Apply(s, evs[0]), evs[1..]);
    }
  }

  lemma {:induction false} CloseAllKeeps(s: State, things: seq<Thing>)
    requires ClosedAre(s.done, s.closed)
    ensures ClosedAre(CloseAll(s, things).done, CloseAll(s, things).closed)
    ensures CloseAll(s, things).closed == s.closed + set t | t in things
    decreases |things|
  {
    if things != [] {
      CloseKeeps(s, things[0]);
      CloseAllKeeps(Close(s, things[0]), things[1..]);
      assert things == [things[0]] + things[1..];
    }
  }

  lemma {:induction false} NoneClosed(after: seq<nat>, blocks: seq<nat>, t: Thing)
    ensures Closed(t) !in Afters(after) && Closed(t) !in Frees(blocks)
    decreases |after| + |blocks|
  {
    if after != [] { NoneClosed(after[..|after| - 1], [], t); }
    if blocks != [] { NoneClosed([], blocks[..|blocks| - 1], t); }
  }

  /** What becomes of each thing handed over while it is received: the method may own it, it is
      closed at once, or, with no allocator, it is lost. */
  datatype Received = Ownable | ClosedAtOnce | NeverReceived

  function ReceivedBy(evs: seq<Event>): seq<Received> {
    if evs == [] then []
    else
      (match evs[0]
       case Taken(isNull, core, moves) =>
         if isNull then [] else [if !core then NeverReceived else if moves then Ownable else ClosedAtOnce]
       case Decode(isNull, core, _) => if isNull then [] else [if core then ClosedAtOnce else NeverReceived]
       case TakenObject(callable) => [if callable then Ownable else ClosedAtOnce]
       case _ => [])
      + ReceivedBy(evs[1..])
  }

  ghost predicate AsReceived(s: State, received: seq<Received>) {
    && s.next == |received|
    && forall t: Thing :: t < s.next ==>
      && (t in s.lost <==> received[t] == NeverReceived) && (t in s.closed <==> received[t] == ClosedAtOnce)
  }

  lemma {:induction false} ReceivedStep(s: State, received: seq<Received>, ev: Event)
    requires AsReceived(s, received) && Inv(s)
    ensures AsReceived(Apply(s, ev), received + ReceivedBy([ev]))
  {
    assert [ev][1..] == [];
    assert s.next !in s.closed && s.next !in s.lost;
  }

  lemma {:induction false} ReceivedRun(s: State, received: seq<Received>, evs: seq<Event>)
    requires AsReceived(s, received) && Inv(s)
    ensures AsReceived(Run(s, evs), received + ReceivedBy(evs))
    decreases |evs|
  {
    if evs == [] {
      assert received + [] == received;
    } else {
      assert [evs[0]][1..] == [];
      assert ReceivedBy(evs) == ReceivedBy([evs[0]]) + ReceivedBy(evs[1..]);
      hide AsReceived, Inv, ReceivedBy, Apply;
      ReceivedStep(s, received, evs[0]);
      StepKeeps(s, evs[0]);
      ReceivedRun(Apply(s, evs[0]), received + ReceivedBy([evs[0]]), evs[1..]);
      Regroup(received, ReceivedBy([evs[0]]), ReceivedBy(evs[1..]));
    }
  }

  /** By the end of the call the t-th thing handed over was closed once, but for one never
      received, and one received whole when the method ran, which is the method's. */
  lemma {:induction false} ReleasedAsReceived(evs: seq<Event>, t: Thing)
    requires t < |ReceivedBy(evs)|
    ensures Count(Ended(Run(BEGUN, evs)).done, Closed(t))
         == if ReceivedBy(evs)[t] == NeverReceived || (ReceivedBy(evs)[t] == Ownable && Ran in evs) then 0 else 1
  {
    assert [] + ReceivedBy(evs) == ReceivedBy(evs);
    ReceivedRun(BEGUN, [], evs);
    ReleasedOnce(evs, t);
  }

  lemma {:induction false} RanIsSaid(s: State, evs: seq<Event>)
    ensures Run(s, evs).ran <==> s.ran || Ran in evs
    decreases |evs|
  {
    if evs != [] {
      RanIsSaid(Apply(s, evs[0]), evs[1..]);
      assert evs == [evs[0]] + evs[1..];
    }
  }

  /** However the body goes, a thing handed over is closed exactly once by the time the call
      ends, unless the method ran and it is the method's, or it was lost. */
  lemma {:induction false} ReleasedOnce(evs: seq<Event>, t: Thing)
    requires t < Run(BEGUN, evs).next
    ensures var s := Run(BEGUN, evs);
      Count(Ended(s).done, Closed(t)) == if t in s.lost || (s.ran && t !in s.closed) then 0 else 1
    ensures var s := Run(BEGUN, evs); t in s.lost || t in s.closed || t in s.taken
    ensures Run(BEGUN, evs).ran <==> Ran in evs
  {
    RanIsSaid(BEGUN, evs);
    RunKeeps(BEGUN, evs);
    var s := Run(BEGUN, evs);
    var c := if s.ran then s else CloseAll(s, s.taken);
    CloseAllKeeps(s, s.taken);
    NoneClosed(s.after, s.blocks, t);
    assert Count(Ended(s).done, Closed(t)) == Count(c.done, Closed(t));
  }

  /** What a step of the body refuses, when it does. */
  function Refusal(ev: Event): Option<Why> {
    match ev
    case Taken(isNull, core, moves) =>
      if isNull then Some(NullArgument) else if !core then Some(NoAllocator)
        else if !moves then Some(NotMoved) else None
    case Decode(isNull, core, decodes) =>
      if isNull then Some(NullArgument) else if !core then Some(NoAllocator)
        else if !decodes then Some(Unreadable) else None
    case TakenObject(callable) => if callable then None else Some(NotCallable)
    case _ => None
  }

  predicate NoneRefused(evs: seq<Event>) {
    forall i :: 0 <= i < |evs| ==> Refusal(evs[i]).None?
  }

  /** At whatever steps handed-over arguments are refused, what the call answers is the first
      refusal, and a call where none is goes on to its target. */
  lemma {:induction false} FirstRefusalIsAnswered(s: State, evs: seq<Event>)
    requires s.refused.None?
    ensures Run(s, evs).refused.None? <==> NoneRefused(evs)
    ensures Run(s, evs).refused.Some? ==>
      exists i :: 0 <= i < |evs| && Refusal(evs[i]) == Run(s, evs).refused && NoneRefused(evs[..i])
    decreases |evs|
  {
    if evs != [] {
      var e, tail := Apply(s, evs[0]), evs[1..];
      assert forall i :: 0 <= i < |tail| ==> tail[i] == evs[i + 1];
      if Refusal(evs[0]).None? {
        FirstRefusalIsAnswered(e, tail);
        if Run(e, tail).refused.Some? {
          var i :| 0 <= i < |tail| && Refusal(tail[i]) == Run(e, tail).refused && NoneRefused(tail[..i]);
          assert evs[..i + 1] == [evs[0]] + tail[..i];
          assert Refusal(evs[i + 1]) == Run(s, evs).refused && NoneRefused(evs[..i + 1]);
        } else {
          assert forall i :: 0 < i < |evs| ==> evs[i] == tail[i - 1];
        }
      } else {
        assert NoneRefused(evs[..0]);
        RefusedStays(e, tail);
      }
    }
  }

  lemma {:induction false} RefusedStays(s: State, evs: seq<Event>)
    requires s.refused.Some?
    ensures Run(s, evs).refused == s.refused
    decreases |evs|
  {
    if evs != [] { RefusedStays(Apply(s, evs[0]), evs[1..]); }
  }

  // --- the nodes made for a call ----------------------------------------------------------

  /** Of each node made for the call, in turn, whether it is over something lent. */
  function NodesOf(evs: seq<Event>): seq<bool> {
    if evs == [] then []
    else
      match evs[0]
      case Lent(isNull, value) => (if isNull || value then [] else [true]) + NodesOf(evs[1..])
      case Borrowed(isNull, value) => (if isNull || value then [] else [false]) + NodesOf(evs[1..])
      case _ => NodesOf(evs[1..])
  }

  /** The nodes over something lent, by number. */
  function LentOf(nodes: seq<bool>): seq<nat> {
    if nodes == [] then []
    else LentOf(nodes[..|nodes| - 1]) + if nodes[|nodes| - 1] then [|nodes| - 1] else []
  }

  /** The blocks and copies outstanding are those of the nodes made so far. */
  ghost predicate NodesKept(s: State, nodes: seq<bool>) {
    && s.made == |nodes| == |s.blocks| && (forall b :: 0 <= b < |nodes| ==> s.blocks[b] == b)
    && s.after == LentOf(nodes)
    && forall x :: x in s.done ==> x.Closed?
  }

  lemma {:induction false} NodeStep(s: State, nodes: seq<bool>, ev: Event)
    requires NodesKept(s, nodes)
    ensures NodesKept(Apply(s, ev), nodes + NodesOf([ev]))
  {
    NodesOne(ev);
    ApplyNodes(s, ev);
    hide NodesOf, Apply;
    var more := nodes + NodesOf([ev]);
    if NodesOf([ev]) == [] {
      assert more == nodes;
    } else {
      assert more[..|nodes|] == nodes;
    }
  }

  lemma {:induction false} ApplyNodes(s: State, ev: Event)
    ensures var made, e := NodesOf([ev]) != [], Apply(s, ev);
      && e.made == s.made + (if made then 1 else 0)
      && e.blocks == (if made then s.blocks + [s.made] else s.blocks)
      && e.after == (if made && ev.Lent? then s.after + [s.made] else s.after)
      && forall x :: x in e.done ==> x in s.done || x.Closed?
  {
    NodesOne(ev);
  }

  lemma NodesOne(ev: Event)
    ensures NodesOf([ev])
         == if (ev.Lent? || ev.Borrowed?) && !ev.isNull && !ev.value then [ev.Lent?] else []
  {
    assert [ev][1..] == [];
  }

  lemma {:induction false} NodesBoth(evs: seq<Event>)
    requires evs != []
    ensures NodesOf(evs) == NodesOf([evs[0]]) + NodesOf(evs[1..])
  {
    assert [evs[0]][1..] == [];
  }

  lemma {:induction false} NodesRun(s: State, nodes: seq<bool>, evs: seq<Event>)
    requires NodesKept(s, nodes)
    ensures NodesKept(Run(s, evs), nodes + NodesOf(evs))
    decreases |evs|
  {
    hide NodesKept, NodesOf, Apply;
    if evs == [] {
      assert nodes + NodesOf(evs) == nodes by { NoNodes(); }
    } else {
      NodeStep(s, nodes, evs[0]);
      NodesRun(Apply(s, evs[0]), nodes + NodesOf([evs[0]]), evs[1..]);
      NodesBoth(evs);
      Regroup(nodes, NodesOf([evs[0]]), NodesOf(evs[1..]));
    }
  }

  lemma NoNodes()
    ensures NodesOf([]) == []
  {
  }

  lemma {:induction false} AftersAt(after: seq<nat>, k: nat)
    requires k < |after|
    ensures |Afters(after)| == |after| && Afters(after)[k] == After(after[|after| - 1 - k])
    decreases |after|
  {
    if |after| > 1 { AftersAt(after[..|after| - 1], if k > 0 then k - 1 else 0); }
  }

  lemma {:induction false} FreesAt(blocks: seq<nat>, k: nat)
    requires k < |blocks|
    ensures |Frees(blocks)| == |blocks| && Frees(blocks)[k] == Freed(blocks[k])
    decreases |blocks|
  {
    if |blocks| > 1 { FreesAt(blocks[..|blocks| - 1], if k < |blocks| - 1 then k else 0); }
  }

  /** A lent node is among them once, one lent by nobody never. */
  lemma {:induction false} LentOnce(nodes: seq<bool>, b: nat)
    ensures multiset(LentOf(nodes))[b] == if b < |nodes| && nodes[b] then 1 else 0
    decreases |nodes|
  {
    if nodes != [] { LentOnce(nodes[..|nodes| - 1], b); }
  }

  lemma {:induction false} CountAfters(after: seq<nat>, b: nat)
    ensures Count(Afters(after), After(b)) == multiset(after)[b] && Count(Afters(after), Freed(b)) == 0
    decreases |after|
  {
    if after != [] {
      CountAfters(after[..|after| - 1], b);
      assert after == after[..|after| - 1] + [after[|after| - 1]];
    }
  }

  lemma {:induction false} CountFrees(blocks: seq<nat>, b: nat)
    ensures Count(Frees(blocks), Freed(b)) == multiset(blocks)[b] && Count(Frees(blocks), After(b)) == 0
    decreases |blocks|
  {
    if blocks != [] {
      CountFrees(blocks[..|blocks| - 1], b);
      assert blocks == blocks[..|blocks| - 1] + [blocks[|blocks| - 1]];
    }
  }

  lemma {:induction false} EachBlockOnce(blocks: seq<nat>, b: nat)
    requires forall i :: 0 <= i < |blocks| ==> blocks[i] == i
    ensures multiset(blocks)[b] == if b < |blocks| then 1 else 0
    decreases |blocks|
  {
    if blocks != [] {
      EachBlockOnce(blocks[..|blocks| - 1], b);
      assert blocks == blocks[..|blocks| - 1] + [blocks[|blocks| - 1]];
    }
  }

  lemma {:induction false} ClosedOnly(s: State, things: seq<Thing>)
    requires forall x :: x in s.done ==> x.Closed?
    ensures var c := CloseAll(s, things);
      (forall x :: x in c.done ==> x.Closed?) && c.after == s.after && c.blocks == s.blocks
    decreases |things|
  {
    if things != [] { ClosedOnly(Close(s, things[0]), things[1..]); }
  }

  /** However the body goes, when the call ends each node made for it is freed once, and one over
      something lent is copied back once, before anything is freed; no other is copied back. */
  lemma {:induction false} NodesSettled(evs: seq<Event>, b: nat)
    ensures var e := Ended(Run(BEGUN, evs)); !e.open && e.taken == [] && e.after == [] && e.blocks == []
    ensures var done, nodes := Ended(Run(BEGUN, evs)).done, NodesOf(evs);
      && Count(done, Freed(b)) == (if b < |nodes| then 1 else 0)
      && Count(done, After(b)) == (if b < |nodes| && nodes[b] then 1 else 0)
      && forall i, j :: 0 <= i < |done| && 0 <= j < |done| && done[i].After? && done[j].Freed? ==> i < j
  {
    assert [] + NodesOf(evs) == NodesOf(evs);
    NodesRun(BEGUN, [], evs);
    var s, nodes := Run(BEGUN, evs), NodesOf(evs);
    var c := if s.ran then s else CloseAll(s, s.taken);
    ClosedOnly(s, s.taken);
    LentOnce(nodes, b);
    EachBlockOnce(s.blocks, b);
    CountAfters(s.after, b);
    CountFrees(s.blocks, b);
    NoneElse(c.done, b);
    EndedInOrder(c.done, s.after, s.blocks);
  }

  lemma NoneElse(done: seq<Item>, b: nat)
    requires forall x :: x in done ==> x.Closed?
    ensures Count(done, Freed(b)) == 0 && Count(done, After(b)) == 0
  {
    assert Freed(b) !in done && After(b) !in done;
  }

  lemma EndedInOrder(done: seq<Item>, after: seq<nat>, blocks: seq<nat>)
    requires forall x :: x in done ==> x.Closed?
    ensures var all := done + Afters(after) + Frees(blocks);
      forall i, j :: 0 <= i < |all| && 0 <= j < |all| && all[i].After? && all[j].Freed? ==> i < j
  {
    var all := done + Afters(after) + Frees(blocks);
    if after != [] { AftersAt(after, 0); }
    if blocks != [] { FreesAt(blocks, 0); }
    forall k | 0 <= k < |after| ensures |Afters(after)| == |after| && Afters(after)[k].After? { AftersAt(after, k); }
    forall k | 0 <= k < |blocks| ensures |Frees(blocks)| == |blocks| && Frees(blocks)[k].Freed? { FreesAt(blocks, k); }
    forall i | 0 <= i < |done| ensures all[i].Closed? { assert all[i] == done[i] && done[i] in done; }
  }

  /** Received while the core has no allocator. */
  predicate Loses(ev: Event) {
    (ev.Taken? || ev.Decode?) && !ev.isNull && !ev.core
  }

  /** Nothing handed over is lost if and only if there was an allocator for each tree. */
  lemma {:induction false} LostOnlyWithoutCore(s: State, evs: seq<Event>)
    ensures Run(s, evs).lost == {} <==> s.lost == {} && forall ev :: ev in evs ==> !Loses(ev)
    decreases |evs|
  {
    if evs != [] {
      var e := Apply(s, evs[0]);
      assert e.lost == s.lost + if Loses(evs[0]) then {s.next} else {};
      assert Loses(evs[0]) ==> s.next in e.lost;
      LostOnlyWithoutCore(e, evs[1..]);
      assert evs == [evs[0]] + evs[1..];
    }
  }

  /** One tree received with no allocator: when the call ends nobody closed it. */
  lemma LostWithoutCore()
    ensures var s := Run(BEGUN, [Taken(false, false, true)]);
      s.lost == {0} && !s.ran && Count(Ended(s).done, Closed(0)) == 0
  {
    var evs := [Taken(false, false, true)];
    assert evs[1..] == [];
    ReleasedOnce(evs, 0);
  }
}
