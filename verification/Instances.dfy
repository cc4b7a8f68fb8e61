/** The instances one library's providers built: the numbers slots know them by, under
    creates and destroys interleaved in any way. */
module Instances {
  import opened Texts

  type Ctx = nat
  type Id = nat

  datatype Target = Object(ctx: Ctx) | Provider(at: nat) | Instance(id: Id) | Missing

  /** Which object, provider or instance a slot called with ctx is of; kinds of objects
      have numbers of the engine's own. */
  function TargetOf(providers: nat, byCtx: map<Ctx, Id>, anObject: bool, ctx: Ctx): Target {
    if anObject then Object(ctx)
    else if 1 <= ctx <= providers then Provider(ctx - 1)
    else if ctx in byCtx then Instance(byCtx[ctx])
    else Missing
  }

  class Instances {
    const providers: nat
    var next: Ctx
    var byCtx: map<Ctx, Id>

    ghost predicate Valid()
      reads this
    {
      providers < next && forall c :: c in byCtx ==> providers < c < next
    }

    constructor (providers: nat)
      ensures Valid() && byCtx == map[] && this.providers == providers && next == providers + 1
    {
      this.providers, next, byCtx := providers, providers + 1, map[];
    }

    /** The number of an instance just built: one no slot was ever called with. */
    method Insert(built: Id) returns (ctx: Ctx)
      requires Valid()
      modifies this
      ensures Valid() && ctx == old(next) && next == ctx + 1 && ctx !in old(byCtx)
      ensures byCtx == old(byCtx)[ctx := built]
    {
      ctx := next;
      next := next + 1;
      byCtx := byCtx[ctx := built];
    }

    /** Forgets an instance, and answers the engine's id for it the first time only. */
    method Remove(ctx: Ctx) returns (id: Option<Id>)
      requires Valid()
      modifies this
      ensures Valid() && next == old(next) && byCtx == old(byCtx) - {ctx}
      ensures id == if ctx in old(byCtx) then Some(old(byCtx)[ctx]) else None
    {
      if ctx !in byCtx { return None; }
      id := Some(byCtx[ctx]);
      byCtx := byCtx - {ctx};
    }

    method Find(anObject: bool, ctx: Ctx) returns (t: Target)
      requires Valid()
      ensures t == TargetOf(providers, byCtx, anObject, ctx)
      ensures anObject ==> t == Object(ctx)
      ensures !anObject && 1 <= ctx <= providers ==> t == Provider(ctx - 1)
      ensures !anObject && ctx !in byCtx && !(1 <= ctx <= providers) ==> t == Missing
      ensures t.Provider? ==> ctx !in byCtx
      ensures !anObject && ctx in byCtx ==> t == Instance(byCtx[ctx])
    {
      if anObject { return Object(ctx); }
      if 1 <= ctx && ctx - 1 < providers { return Provider(ctx - 1); }
      t := if ctx in byCtx then Instance(byCtx[ctx]) else Missing;
    }
  }

  // --- creates and destroys interleaved --------------------------------------------------

  /** built counts what the engine built, and names each by its turn. Between the engine's
      answer and its number an instance is arriving; between losing the number and the
      engine's hearing of it, leaving. issued are the numbers ever given out. */
  datatype State = State(
    providers: nat,
    built: nat,
    arriving: set<Id>,
    next: Ctx,
    byCtx: map<Ctx, Id>,
    leaving: set<Id>,
    destroyed: seq<Id>,
    issued: map<Ctx, Id>)

  datatype Event =
    | Build(provider: nat)
    | Arrive(id: Id)
    | Leave(ctx: Ctx)
    | Destroy(id: Id)

  function Start(providers: nat): State {
    State(providers, 0, {}, providers + 1, map[], {}, [], map[])
  }

  function Apply(s: State, ev: Event): Option<State> {
    match ev
    case Build(provider) =>
      if 1 <= provider <= s.providers then Some(s.(built := s.built + 1, arriving := s.arriving + {s.built}))
      else Some(s)
    case Arrive(id) =>
      if id in s.arriving
      then Some(s.(arriving := s.arriving - {id}, next := s.next + 1,
                   byCtx := s.byCtx[s.next := id], issued := s.issued[s.next := id]))
      else None
    case Leave(ctx) =>
      if ctx in s.byCtx then Some(s.(byCtx := s.byCtx - {ctx}, leaving := s.leaving + {s.byCtx[ctx]}))
      else Some(s)
    case Destroy(id) =>
      if id in s.leaving then Some(s.(leaving := s.leaving - {id}, destroyed := s.destroyed + [id])) else None
  }

  function Run(s: State, evs: seq<Event>): Option<State>
    decreases |evs|
  {
    if evs == [] then Some(s)
    else match Apply(s, evs[0])
      case None => None
      case Some(next) => Run(next, evs[1..])
  }

  /** In which of an instance's four stages it is. */
  ghost predicate Listed(s: State, id: Id) {
    exists c :: c in s.byCtx && s.byCtx[c] == id
  }

  ghost function Stages(s: State, id: Id): nat {
    (if id in s.arriving then 1 else 0) + (if Listed(s, id) then 1 else 0)
    + (if id in s.leaving then 1 else 0) + multiset(s.destroyed)[id]
  }

  ghost predicate Inv(s: State) {
    && s.providers < s.next
    && (forall c :: c in s.issued <==> s.providers < c < s.next)
    && (forall c :: c in s.byCtx ==> c in s.issued && s.issued[c] == s.byCtx[c])
    && (forall c, d :: c in s.byCtx && d in s.byCtx && s.byCtx[c] == s.byCtx[d] ==> c == d)
    && (forall id: Id :: Stages(s, id) == if id < s.built then 1 else 0)
  }

  lemma {:induction false} ArriveKeeps(s: State, arrived: Id, next: State)
    requires Inv(s) && Apply(s, Arrive(arrived)) == Some(next)
    ensures Inv(next)
  {
    assert Stages(s, arrived) == 1 && !Listed(s, arrived);
    forall id: Id ensures Stages(next, id) == if id < next.built then 1 else 0 {
      assert Stages(s, id) == if id < s.built then 1 else 0;
      assert Listed(next, id) == (Listed(s, id) || id == arrived) by {
        if Listed(s, id) {
          var c :| c in s.byCtx && s.byCtx[c] == id;
          assert next.byCtx[c] == id;
        }
        assert next.byCtx[s.next] == arrived;
      }
    }
  }

  lemma {:induction false} LeaveKeeps(s: State, ctx: Ctx, next: State)
    requires Inv(s) && ctx in s.byCtx && Apply(s, Leave(ctx)) == Some(next)
    ensures Inv(next)
  {
    var left := s.byCtx[ctx];
    assert Listed(s, left);
    forall id: Id ensures Stages(next, id) == if id < next.built then 1 else 0 {
      assert Stages(s, id) == if id < s.built then 1 else 0;
      assert Listed(next, id) == (Listed(s, id) && id != left) by {
        if Listed(s, id) && id != left {
          var c :| c in s.byCtx && s.byCtx[c] == id;
          assert next.byCtx[c] == id;
        }
      }
    }
  }

  lemma {:induction false} StepKeeps(s: State, ev: Event, next: State)
    requires Inv(s) && Apply(s, ev) == Some(next)
    ensures Inv(next)
  {
    if ev.Arrive? {
      ArriveKeeps(s, ev.id, next);
    } else if ev.Leave? && ev.ctx in s.byCtx {
      LeaveKeeps(s, ev.ctx, next);
    } else {
      forall id: Id ensures Stages(next, id) == if id < next.built then 1 else 0 {
        assert Listed(next, id) == Listed(s, id) && Stages(s, id) == if id < s.built then 1 else 0;
      }
    }
  }

  lemma {:induction false} RunKeeps(s: State, evs: seq<Event>, end: State)
    requires Inv(s) && Run(s, evs) == Some(end)
    ensures Inv(end)
    decreases |evs|
  {
    if evs != [] {
      var next := Apply(s, evs[0]).value;
      StepKeeps(s, evs[0], next);
      RunKeeps(next, evs[1..], end);
    }
  }

  /** How many creates name a provider. */
  function Builds(providers: nat, evs: seq<Event>): nat {
    if evs == [] then 0
    else (if evs[0].Build? && 1 <= evs[0].provider <= providers then 1 else 0) + Builds(providers, evs[1..])
  }

  /** An instance is built by each create that names a provider, and by nothing else. */
  lemma {:induction false} BuiltByProviders(s: State, evs: seq<Event>, end: State)
    requires Run(s, evs) == Some(end)
    ensures end.built == s.built + Builds(s.providers, evs) && end.providers == s.providers
    decreases |evs|
  {
    if evs != [] { BuiltByProviders(Apply(s, evs[0]).value, evs[1..], end); }
  }

  /** No instance is stuck: one on its way in can be listed, one listed can leave, and one that
      left can be destroyed. */
  lemma {:induction false} NoneStuck(s: State, id: Id)
    requires Inv(s) && id < s.built && id !in s.destroyed
    ensures
      || (Apply(s, Arrive(id)).Some? && Listed(Apply(s, Arrive(id)).value, id))
      || (Apply(s, Destroy(id)).Some? && id in Apply(s, Destroy(id)).value.destroyed)
      || exists ctx :: ctx in s.byCtx && id in Apply(s, Leave(ctx)).value.leaving
  {
    assert Stages(s, id) == 1 && multiset(s.destroyed)[id] == 0;
    if id in s.arriving {
      assert Apply(s, Arrive(id)).value.byCtx[s.next] == id;
    } else if Listed(s, id) {
      var ctx :| ctx in s.byCtx && s.byCtx[ctx] == id;
      assert id in Apply(s, Leave(ctx)).value.leaving;
    }
  }

  /** Over every run an instance is destroyed at most once, and only after it left; every
      number is above the providers' and stands for one instance. */
  lemma {:induction false} DestroyedOnce(providers: nat, evs: seq<Event>, s: State)
    requires Run(Start(providers), evs) == Some(s)
    ensures Inv(s)
    ensures forall id: Id :: multiset(s.destroyed)[id] <= 1 && (id in s.destroyed ==> id < s.built && !Listed(s, id))
    ensures forall ctx :: ctx in s.byCtx ==> s.providers < ctx < s.next
    ensures forall ctx :: ctx in s.byCtx ==> TargetOf(s.providers, s.byCtx, false, ctx) == Instance(s.byCtx[ctx])
  {
    var start := Start(providers);
    assert forall id: Id :: !Listed(start, id);
    RunKeeps(start, evs, s);
    forall id: Id ensures multiset(s.destroyed)[id] <= 1 && (id in s.destroyed ==> id < s.built && !Listed(s, id)) {
      assert Stages(s, id) == if id < s.built then 1 else 0;
      assert id in s.destroyed ==> id in multiset(s.destroyed);
    }
  }

  /** Once nothing is arriving, listed or leaving, all that was built was destroyed. */
  lemma {:induction false} AllDestroyed(s: State)
    requires Inv(s) && s.arriving == {} && s.byCtx == map[] && s.leaving == {}
    ensures forall id: Id :: id < s.built <==> multiset(s.destroyed)[id] == 1
  {
    forall id: Id ensures id < s.built <==> multiset(s.destroyed)[id] == 1 {
      assert !Listed(s, id) && Stages(s, id) == if id < s.built then 1 else 0;
    }
  }

  /** A number given out once is never another instance's, nor a provider's: a slot called
      with it later finds that instance, or none once it left. */
  lemma {:induction false} NeverReused(s: State, evs: seq<Event>, end: State, ctx: Ctx)
    requires Inv(s) && Run(s, evs) == Some(end) && ctx in s.issued
    ensures ctx in end.issued && end.issued[ctx] == s.issued[ctx]
    ensures var t := TargetOf(end.providers, end.byCtx, false, ctx);
      t == Missing || (t == Instance(s.issued[ctx]) && ctx in s.byCtx)
    decreases |evs|
  {
    if evs != [] {
      var next := Apply(s, evs[0]).value;
      StepKeeps(s, evs[0], next);
      NeverReused(next, evs[1..], end, ctx);
    }
  }
}
