/** What this side holds of objects of others, and others of this side's: an owned remote
    destroyed or handed over once, and Go values numbered for C to hold. */
module Remotes {
  import opened Texts

  // --- an owned remote, whatever threads close it or hand it over ---------------------------

  type Thread = nat

  /** Where a thread is in Close or giveUp (give): before the check of closed, before the
      swap, and, the one that swapped, before the collector is told and before the end. */
  datatype At = Checking | Swapping(give: bool) | Stopping(give: bool) | Finishing(give: bool)

  datatype Remote = Remote(
    owned: bool,
    closed: bool,
    stopped: bool,
    collected: bool,
    destroyed: nat,
    givenUp: nat,
    at: map<Thread, At>)

  datatype Event =
    | Close(thread: Thread)
    | GiveUp(thread: Thread)
    | Check(thread: Thread)
    | Swap(thread: Thread)
    | StopCleanup(thread: Thread)
    | Finish(thread: Thread)
    | Collect

  function New(owned: bool): Remote {
    Remote(owned, false, false, false, 0, 0, map[])
  }

  predicate IsAt(r: Remote, t: Thread, at: At) {
    t in r.at && r.at[t] == at
  }

  function Apply(r: Remote, ev: Event): Option<Remote> {
    match ev
    case Close(t) =>
      if r.collected || t in r.at then None
      else Some(if r.owned then r.(at := r.at[t := Swapping(false)]) else r)
    case GiveUp(t) => if r.collected || t in r.at then None else Some(r.(at := r.at[t := Checking]))
    case Check(t) =>
      if !IsAt(r, t, Checking) then None
      else if r.closed || !r.owned then Some(r.(at := r.at - {t}))
      else Some(r.(at := r.at[t := Swapping(true)]))
    case Swap(t) =>
      if t !in r.at || !r.at[t].Swapping? then None
      else if r.closed then Some(r.(at := r.at - {t}))
      else Some(r.(closed := true, at := r.at[t := Stopping(r.at[t].give)]))
    case StopCleanup(t) =>
      if t !in r.at || !r.at[t].Stopping? then None
      else Some(r.(stopped := true, at := r.at[t := Finishing(r.at[t].give)]))
    case Finish(t) =>
      if t !in r.at || !r.at[t].Finishing? then None
      else if r.at[t].give then Some(r.(givenUp := r.givenUp + 1, at := r.at - {t}))
      else Some(r.(destroyed := r.destroyed + 1, at := r.at - {t}))
    // Unreachable once no thread has it; the cleanup added for an owned one destroys it.
    case Collect =>
      if r.collected || r.at != map[] then None
      else if r.owned && !r.stopped then Some(r.(collected := true, destroyed := r.destroyed + 1))
      else Some(r.(collected := true))
  }

  function Run(r: Remote, evs: seq<Event>): Option<Remote>
    decreases |evs|
  {
    if evs == [] then Some(r)
    else match Apply(r, evs[0])
      case None => None
      case Some(next) => Run(next, evs[1..])
  }

  predicate Won(r: Remote, t: Thread) {
    t in r.at && (r.at[t].Stopping? || r.at[t].Finishing?)
  }

  ghost predicate Inv(r: Remote) {
    && (forall t, u :: Won(r, t) && Won(r, u) ==> t == u)
    && (!r.owned ==> !r.closed && forall t :: t in r.at ==> r.at[t] == Checking)
    && (r.collected ==> r.at == map[])
    && (forall t :: Won(r, t) ==> r.closed && r.destroyed + r.givenUp == 0 && r.stopped == r.at[t].Finishing?)
    && (r.closed && (forall t :: !Won(r, t)) ==> r.stopped && r.destroyed + r.givenUp == 1)
    && (!r.closed ==> !r.stopped && r.givenUp == 0 && r.destroyed == if r.collected && r.owned then 1 else 0)
  }

  lemma {:induction false} StepKeeps(r: Remote, ev: Event, next: Remote)
    requires Inv(r) && Apply(r, ev) == Some(next)
    ensures Inv(next)
  {
    match ev
    case Finish(t) => assert Won(r, t); assert forall u :: Won(next, u) ==> Won(r, u) && u != t;
    case StopCleanup(t) => assert Won(r, t); assert forall u :: Won(next, u) == Won(r, u);
    case Swap(t) =>
      assert !Won(r, t);
      assert !r.closed ==> Won(next, t) && forall u :: !Won(r, u);
      assert forall u :: u != t ==> Won(next, u) == Won(r, u);
    case Collect => assert forall u :: !Won(r, u) && !Won(next, u);
    case Close(t) => assert !Won(r, t); assert forall u :: Won(next, u) == Won(r, u);
    case GiveUp(t) => assert !Won(r, t); assert forall u :: Won(next, u) == Won(r, u);
    case Check(t) => assert !Won(r, t); assert forall u :: Won(next, u) == Won(r, u);
  }

  /** However Close, giveUp and the collector interleave, an object this side owns is
      destroyed or handed over once and never both, an object it does not own neither; and
      one that nobody holds any more was not forgotten. */
  lemma {:induction false} OnceOnly(r: Remote, evs: seq<Event>, end: Remote)
    requires Inv(r) && Run(r, evs) == Some(end)
    ensures Inv(end) && end.owned == r.owned
    ensures end.destroyed + end.givenUp <= if r.owned then 1 else 0
    ensures end.collected && r.owned ==> end.destroyed + end.givenUp == 1
    decreases |evs|
  {
    if evs == [] {
      if t :| Won(r, t) {
        assert r.destroyed + r.givenUp == 0;
      }
      if r.collected {
        assert forall t :: !Won(r, t);
      }
    } else {
      var next := Apply(r, evs[0]).value;
      StepKeeps(r, evs[0], next);
      OnceOnly(next, evs[1..], end);
    }
  }

  lemma {:induction false} OnceOnlyFromNew(owned: bool, evs: seq<Event>, end: Remote)
    requires Run(New(owned), evs) == Some(end)
    ensures end.destroyed + end.givenUp <= if owned then 1 else 0
    ensures end.collected && owned ==> end.destroyed + end.givenUp == 1
  {
    assert forall t :: !Won(New(owned), t);
    OnceOnly(New(owned), evs, end);
  }

  /** Once collected a remote has nothing more done to it. */
  lemma CollectedIsLast(r: Remote, next: Remote, ev: Event)
    requires Apply(r, Collect) == Some(next)
    ensures next.collected && Apply(next, ev).None?
    ensures next.destroyed == r.destroyed + (if r.owned && !r.stopped then 1 else 0) && next.givenUp == r.givenUp
  {
  }

  // --- which of the two ----------------------------------------------------------------

  datatype Errand = NotIn | ToClose | ToGiveUp

  /** What t last came in for. */
  function CameFor(evs: seq<Event>, t: Thread): Errand {
    if evs == [] then NotIn
    else
      var last := |evs| - 1;
      match evs[last]
      case Close(u) => if u == t then ToClose else CameFor(evs[..last], t)
      case GiveUp(u) => if u == t then ToGiveUp else CameFor(evs[..last], t)
      case _ => CameFor(evs[..last], t)
  }

  function ErrandOf(at: At): Errand {
    if at.Checking? || at.give then ToGiveUp else ToClose
  }

  /** What a thread is in is what it last came in for. */
  ghost predicate AsTheyCame(r: Remote, evs: seq<Event>) {
    forall t :: t in r.at ==> CameFor(evs, t) == ErrandOf(r.at[t])
  }

  lemma {:induction false} RunBoth(r: Remote, evs: seq<Event>, ev: Event)
    ensures Run(r, evs + [ev]) == match Run(r, evs) case None => None case Some(next) => Apply(next, ev)
    decreases |evs|
  {
    if evs == [] {
      assert [ev][1..] == [];
    } else {
      assert (evs + [ev])[1..] == evs[1..] + [ev];
      if Apply(r, evs[0]).Some? { RunBoth(Apply(r, evs[0]).value, evs[1..], ev); }
    }
  }

  lemma {:induction false} CameStep(r: Remote, evs: seq<Event>, ev: Event, next: Remote)
    requires AsTheyCame(r, evs) && Apply(r, ev) == Some(next)
    ensures AsTheyCame(next, evs + [ev])
  {
    assert (evs + [ev])[..|evs|] == evs;
    forall t | t in next.at ensures CameFor(evs + [ev], t) == ErrandOf(next.at[t]) {
      hide CameFor;
      CameLast(evs, ev, t);
    }
  }

  lemma {:induction false} CameLast(evs: seq<Event>, ev: Event, t: Thread)
    ensures CameFor(evs + [ev], t)
         == if ev == Close(t) then ToClose else if ev == GiveUp(t) then ToGiveUp else CameFor(evs, t)
  {
    assert (evs + [ev])[..|evs|] == evs;
  }

  lemma {:induction false} ComeAsTheyCame(owned: bool, evs: seq<Event>, end: Remote)
    requires Run(New(owned), evs) == Some(end)
    ensures AsTheyCame(end, evs)
    decreases |evs|
  {
    if evs != [] {
      var last := |evs| - 1;
      assert evs == evs[..last] + [evs[last]];
      hide Apply, AsTheyCame, Run;
      RunBoth(New(owned), evs[..last], evs[last]);
      var r := Run(New(owned), evs[..last]).value;
      ComeAsTheyCame(owned, evs[..last], r);
      CameStep(r, evs[..last], evs[last], end);
    }
  }

  /** The thread that finishes decides: the object is the callee's if and only if that thread
      came by giveUp, and destroyed if and only if it came by Close. */
  lemma {:induction false} FinisherDecides(owned: bool, evs: seq<Event>, t: Thread, end: Remote)
    requires Run(New(owned), evs + [Finish(t)]) == Some(end)
    ensures CameFor(evs, t) == ToGiveUp ==> end.givenUp == 1 && end.destroyed == 0
    ensures CameFor(evs, t) == ToClose ==> end.destroyed == 1 && end.givenUp == 0
    ensures CameFor(evs, t) != NotIn
  {
    RunBoth(New(owned), evs, Finish(t));
    var r := Run(New(owned), evs).value;
    ComeAsTheyCame(owned, evs, r);
    assert forall u :: !Won(New(owned), u);
    OnceOnly(New(owned), evs, r);
    assert Won(r, t);
  }

  /** Without a giveUp nothing is handed over; without a Close nothing is destroyed but by the
      collector. */
  lemma {:induction false} NotWithoutACall(owned: bool, evs: seq<Event>, end: Remote)
    requires Run(New(owned), evs) == Some(end)
    ensures (forall ev :: ev in evs ==> !ev.GiveUp?) ==> end.givenUp == 0
    ensures (forall ev :: ev in evs ==> !ev.Close?) && !end.collected ==> end.destroyed == 0
    decreases |evs|
  {
    if evs != [] {
      var last, front := |evs| - 1, evs[..|evs| - 1];
      assert evs == front + [evs[last]];
      RunBoth(New(owned), front, evs[last]);
      var r := Run(New(owned), front).value;
      NotWithoutACall(owned, front, r);
      if evs[last].Finish? {
        var t := evs[last].thread;
        FinisherDecides(owned, front, t, end);
        CameByCall(front, t);
        assert CameFor(front, t) == ToGiveUp || CameFor(front, t) == ToClose;
        assert CameFor(front, t) == ToGiveUp ==> GiveUp(t) in evs;
        assert CameFor(front, t) == ToClose ==> Close(t) in evs;
      } else {
        assert end.givenUp == r.givenUp && (end.destroyed == r.destroyed || end.collected);
        assert r.collected ==> end.collected;
      }
    }
  }

  lemma {:induction false} CameByCall(evs: seq<Event>, t: Thread)
    ensures CameFor(evs, t) == ToGiveUp ==> GiveUp(t) in evs
    ensures CameFor(evs, t) == ToClose ==> Close(t) in evs
    decreases |evs|
  {
    if evs != [] { CameByCall(evs[..|evs| - 1], t); }
  }

  // --- Go values C holds -------------------------------------------------------------------

  const LOW_UNMAPPED: nat := 0x10000
  const CONTEXT_STRIDE: nat := 16

  datatype Named = NullArgument | Gone | Handle(number: nat)

  datatype HeldValue = HeldValue(x: nat, anObject: bool)

  /** A handle shaped like an address. */
  function CtxOf(number: nat): nat {
    LOW_UNMAPPED + CONTEXT_STRIDE * number
  }

  function HandleOf(ctx: nat): Named {
    if ctx == 0 then NullArgument
    else if ctx <= LOW_UNMAPPED || (ctx - LOW_UNMAPPED) % CONTEXT_STRIDE != 0 then Gone
    else Handle((ctx - LOW_UNMAPPED) / CONTEXT_STRIDE)
  }

  /** A ctx names a handle if and only if it is that handle's. */
  lemma HandlesReadBack(ctx: nat, number: nat)
    ensures number > 0 ==> (HandleOf(ctx) == Handle(number) <==> ctx == CtxOf(number))
    ensures HandleOf(ctx) != Handle(0)
    ensures HandleOf(ctx) == NullArgument <==> ctx == 0
  {
    if ctx > LOW_UNMAPPED {
      var d := ctx - LOW_UNMAPPED;
      assert d == CONTEXT_STRIDE * (d / CONTEXT_STRIDE) + d % CONTEXT_STRIDE;
    }
  }

  class Table {
    var next: nat
    var values: map<nat, HeldValue>
    var live: int

    ghost function Objects(): set<nat>
      reads this
    {
      set h | h in values && values[h].anObject
    }

    ghost predicate Valid()
      reads this
    {
      && 0 < next
      && (forall h :: h in values ==> 0 < h < next)
      && live == |Objects()|
    }

    constructor ()
      ensures Valid() && values == map[] && next == 1
    {
      next, values, live := 1, map[], 0;
      new;
      assert Objects() == {};
    }

    /** A number no ctx had before. */
    method Hold(x: nat, anObject: bool) returns (ctx: nat)
      requires Valid()
      modifies this
      ensures Valid() && ctx == CtxOf(old(next)) && next == old(next) + 1 && old(next) !in old(values)
      ensures values == old(values)[old(next) := HeldValue(x, anObject)]
      ensures live == old(live) + if anObject then 1 else 0
    {
      ghost var were := Objects();
      ctx := CtxOf(next);
      values := values[next := HeldValue(x, anObject)];
      next := next + 1;
      if anObject {
        live := live + 1;
        assert Objects() == were + {next - 1};
      } else {
        assert Objects() == were;
      }
    }

    /** What ctx names, if it names anything still held. */
    method Held(ctx: nat) returns (x: Option<nat>)
      requires Valid()
      ensures forall h :: h in values ==> (ctx == CtxOf(h) ==> x == Some(values[h].x))
      ensures x.Some? ==> exists h :: h in values && ctx == CtxOf(h)
    {
      forall h | h in values ensures HandleOf(ctx) == Handle(h) <==> ctx == CtxOf(h) {
        HandlesReadBack(ctx, h);
      }
      var named := HandleOf(ctx);
      x := if named.Handle? && named.number in values then Some(values[named.number].x) else None;
    }

    /** What ctx names is answered the first time only: from then on ctx names nothing. */
    method Release(ctx: nat) returns (x: Option<nat>)
      requires Valid()
      modifies this
      ensures Valid() && next == old(next)
      ensures x.None? ==> values == old(values) && forall h :: h in values ==> ctx != CtxOf(h)
      ensures x.Some? ==> exists h ::
        && h in old(values) && ctx == CtxOf(h) && x.value == old(values)[h].x && values == old(values) - {h}
        && live == old(live) - if old(values)[h].anObject then 1 else 0
    {
      forall h | h in values ensures HandleOf(ctx) == Handle(h) <==> ctx == CtxOf(h) {
        HandlesReadBack(ctx, h);
      }
      var named := HandleOf(ctx);
      if !named.Handle? || named.number !in values { return None; }
      ghost var were := Objects();
      var v := values[named.number];
      values := values - {named.number};
      assert Objects() == were - {named.number};
      if v.anObject { live := live - 1; }
      x := Some(v.x);
    }
  }
}
