/** Any number of calls under way at once, one inside another or side by side: where every
    object is, over every run of taking arguments, calling, dropping and closing. */
module Ownership {
  import opened Texts
  import opened Objects

  type Home = nat
  type CallId = nat

  /** known are the objects that ever came to a handle; callee those handed over or answered;
      destroyed those closed. */
  datatype World = World(
    handles: map<Home, Held>,
    calls: map<CallId, seq<Prepared<Home>>>,
    known: set<Obj>,
    callee: set<Obj>,
    destroyed: set<Obj>)

  /** fits says the handle is of the kind asked for. */
  datatype Event =
    | NewHandle(home: Home, held: Held)
    | Begin(call: CallId)
    | Take(call: CallId, home: Home, fits: bool, pass: Pass)
    | Give(call: CallId)
    | Drop(call: CallId)
    | HandBack(home: Home)
    | Close(home: Home)

  const EMPTY: World := World(map[], map[], {}, {}, {})

  /** The objects a call's arguments hand over. */
  function Handed(args: seq<Prepared<Home>>): set<Obj> {
    set i | 0 <= i < |args| && args[i].Object? && args[i].obj.Some? :: args[i].obj.value
  }

  function KeptAll(args: seq<Prepared<Home>>): seq<Prepared<Home>> {
    seq(|args|, i requires 0 <= i < |args| => Kept(args[i]))
  }

  /** The handles after each argument that still holds an object gave it back in turn. */
  function PutAll(handles: map<Home, Held>, args: seq<Prepared<Home>>): map<Home, Held>
    decreases |args|
  {
    if args == [] then handles
    else
      var p := args[0];
      PutAll(if Holds(p) && p.home in handles
             then handles[p.home := PutBack(handles[p.home], p.obj.value)] else handles, args[1..])
  }

  predicate HoldsObject(w: World, home: Home) {
    home in w.handles && w.handles[home].Object? && w.handles[home].slot.Some?
  }

  /** What a step makes of w; None when it is not enabled. A refusal changes nothing. */
  function Apply(w: World, ev: Event): Option<World> {
    match ev
    case NewHandle(home, held) =>
      if home in w.handles then None
      else if held.Object? && held.slot.Some? then
        var o := held.slot.value;
        if o in w.known then None
        else Some(w.(handles := w.handles[home := held], known := w.known + {o}))
      else Some(w.(handles := w.handles[home := held]))
    case Begin(call) => if call in w.calls then None else Some(w.(calls := w.calls[call := []]))
    case Take(call, home, fits, pass) =>
      if call !in w.calls || home !in w.handles then None
      else if !fits || !Crosses(w.handles[home], pass) then Some(w)
      else
        var (arg, held) := Argued(w.handles[home], pass, home);
        Some(w.(handles := w.handles[home := held], calls := w.calls[call := w.calls[call] + [arg]]))
    case Give(call) =>
      if call !in w.calls then None
      else Some(w.(calls := w.calls[call := KeptAll(w.calls[call])], callee := w.callee + Handed(w.calls[call])))
    case Drop(call) =>
      if call !in w.calls then None
      else Some(w.(handles := PutAll(w.handles, w.calls[call]), calls := w.calls - {call}))
    case HandBack(home) =>
      if HoldsObject(w, home)
      then Some(w.(handles := w.handles[home := Held.Object(None)], callee := w.callee + {w.handles[home].slot.value}))
      else Some(w)
    case Close(home) =>
      if HoldsObject(w, home)
      then Some(w.(handles := w.handles[home := Held.Object(None)],
        destroyed := w.destroyed + {w.handles[home].slot.value}))
      else Some(w)
  }

  function Run(w: World, evs: seq<Event>): Option<World>
    decreases |evs|
  {
    if evs == [] then Some(w)
    else match Apply(w, evs[0])
      case None => None
      case Some(next) => Run(next, evs[1..])
  }

  // --- the ledger ------------------------------------------------------------------------

  datatype Place = InHandle(home: Home) | InCall(call: CallId, at: nat) | WithCallee | Gone

  ghost predicate InArg(w: World, call: CallId, at: nat) {
    call in w.calls && at < |w.calls[call]| && Holds(w.calls[call][at])
  }

  ghost predicate At(w: World, o: Obj, p: Place) {
    match p
    case InHandle(home) => HoldsObject(w, home) && w.handles[home].slot.value == o
    case InCall(call, at) => InArg(w, call, at) && w.calls[call][at].obj.value == o
    case WithCallee => o in w.callee
    case Gone => o in w.destroyed
  }

  /** Every object that is known is in the one place the ledger says, and nowhere else. */
  ghost predicate Agrees(w: World, ledger: map<Obj, Place>) {
    && ledger.Keys == w.known
    && (forall o, p :: At(w, o, p) <==> o in ledger && ledger[o] == p)
  }

  /** A handle whose object is an argument's is empty, and its object is one argument's. */
  ghost predicate Homed(w: World) {
    && (forall c: CallId, i: nat :: InArg(w, c, i) ==>
          w.calls[c][i].home in w.handles && w.handles[w.calls[c][i].home] == Held.Object(None))
    && (forall c: CallId, i: nat, d: CallId, j: nat ::
          InArg(w, c, i) && InArg(w, d, j) && w.calls[c][i].home == w.calls[d][j].home
          ==> c == d && i == j)
  }

  /** Where a step takes the objects. */
  ghost function Moved(w: World, ledger: map<Obj, Place>, ev: Event): map<Obj, Place> {
    match ev
    case NewHandle(home, held) =>
      if held.Object? && held.slot.Some? then ledger[held.slot.value := InHandle(home)] else ledger
    case Begin(_) => ledger
    case Take(call, home, fits, pass) =>
      if fits && HoldsObject(w, home) && call in w.calls
      then ledger[w.handles[home].slot.value := InCall(call, |w.calls[call]|)] else ledger
    case Give(call) => map o | o in ledger ::
      if ledger[o].InCall? && ledger[o].call == call && InArg(w, call, ledger[o].at)
         && w.calls[call][ledger[o].at].Object? then WithCallee else ledger[o]
    case Drop(call) => map o | o in ledger ::
      if ledger[o].InCall? && ledger[o].call == call && InArg(w, call, ledger[o].at)
      then InHandle(w.calls[call][ledger[o].at].home) else ledger[o]
    case HandBack(home) => if HoldsObject(w, home) then ledger[w.handles[home].slot.value := WithCallee] else ledger
    case Close(home) => if HoldsObject(w, home) then ledger[w.handles[home].slot.value := Gone] else ledger
  }

  lemma {:induction false} PutAllAt(handles: map<Home, Held>, args: seq<Prepared<Home>>)
    requires forall i :: 0 <= i < |args| && Holds(args[i]) ==>
      args[i].home in handles && handles[args[i].home] == Held.Object(None)
    requires forall i, j :: 0 <= i < j < |args| && Holds(args[i]) && Holds(args[j]) ==> args[i].home != args[j].home
    ensures var r := PutAll(handles, args);
      && r.Keys == handles.Keys
      && (forall i :: 0 <= i < |args| && Holds(args[i]) ==> r[args[i].home] == Held.Object(args[i].obj))
      && (forall h :: h in handles && (forall i :: 0 <= i < |args| && Holds(args[i]) ==> args[i].home != h)
            ==> r[h] == handles[h])
    decreases |args|
  {
    if args != [] {
      var p := args[0];
      var next := if Holds(p) && p.home in handles
        then handles[p.home := PutBack(handles[p.home], p.obj.value)] else handles;
      PutAllAt(next, args[1..]);
      forall i | 0 < i < |args| ensures args[i] == args[1..][i - 1] {}
    }
  }

  /** Every event but Give and Drop moves at most one object. */
  lemma {:induction false} HandleStepKeeps(w: World, ledger: map<Obj, Place>, ev: Event, next: World)
    requires ev.NewHandle? || ev.HandBack? || ev.Close? || ev.Begin?
    requires Agrees(w, ledger) && Homed(w) && Apply(w, ev) == Some(next)
    ensures Agrees(next, Moved(w, ledger, ev)) && Homed(next)
  {
    var moved := Moved(w, ledger, ev);
    if !ev.Begin? && HoldsObject(w, ev.home) {
      assert At(w, w.handles[ev.home].slot.value, InHandle(ev.home));
    }
    assert forall c: CallId, i: nat :: InArg(next, c, i) <==> InArg(w, c, i);
    assert forall c: CallId, i: nat :: InArg(w, c, i) ==> next.calls[c] == w.calls[c];
    forall o, p ensures At(next, o, p) <==> o in moved && moved[o] == p {
      assert At(w, o, p) <==> o in ledger && ledger[o] == p;
      if !ev.Begin? {
        assert At(w, o, InHandle(ev.home)) <==> o in ledger && ledger[o] == InHandle(ev.home);
      }
    }
  }

  lemma {:induction false} TakeKeeps(w: World, ledger: map<Obj, Place>, ev: Event, next: World)
    requires ev.Take? && Agrees(w, ledger) && Homed(w) && Apply(w, ev) == Some(next)
    ensures Agrees(next, Moved(w, ledger, ev)) && Homed(next)
  {
    var moved, n := Moved(w, ledger, ev), |w.calls[ev.call]|;
    if next != w {
      assert HoldsObject(w, ev.home) ==> At(w, w.handles[ev.home].slot.value, InHandle(ev.home));
      assert forall c: CallId, i: nat :: InArg(w, c, i) ==> InArg(next, c, i) && next.calls[c][i] == w.calls[c][i];
      assert forall c: CallId, i: nat :: InArg(next, c, i) ==> InArg(w, c, i) || (c == ev.call && i == n);
      forall o, p ensures At(next, o, p) <==> o in moved && moved[o] == p {
        assert At(w, o, p) <==> o in ledger && ledger[o] == p;
        assert At(w, o, InHandle(ev.home)) <==> o in ledger && ledger[o] == InHandle(ev.home);
      }
    }
  }

  lemma {:induction false} GiveKeeps(w: World, ledger: map<Obj, Place>, ev: Event, next: World)
    requires ev.Give? && Agrees(w, ledger) && Homed(w) && Apply(w, ev) == Some(next)
    ensures Agrees(next, Moved(w, ledger, ev)) && Homed(next)
  {
    var moved, args := Moved(w, ledger, ev), w.calls[ev.call];
    assert forall c: CallId, i: nat :: InArg(next, c, i) <==> InArg(w, c, i) && !(c == ev.call && args[i].Object?);
    assert forall c: CallId, i: nat :: InArg(next, c, i) ==> next.calls[c][i] == w.calls[c][i];
    forall o, p ensures At(next, o, p) <==> o in moved && moved[o] == p {
      assert At(w, o, p) <==> o in ledger && ledger[o] == p;
      if o in Handed(args) {
        var i :| 0 <= i < |args| && args[i].Object? && args[i].obj.Some? && args[i].obj.value == o;
        assert At(w, o, InCall(ev.call, i));
      } else if o in ledger && ledger[o].InCall? {
        assert At(w, o, ledger[o]);
      }
    }
  }

  lemma {:induction false} DropKeeps(w: World, ledger: map<Obj, Place>, ev: Event, next: World)
    requires ev.Drop? && Agrees(w, ledger) && Homed(w) && Apply(w, ev) == Some(next)
    ensures Agrees(next, Moved(w, ledger, ev)) && Homed(next)
  {
    var moved, args := Moved(w, ledger, ev), w.calls[ev.call];
    assert forall i :: 0 <= i < |args| && Holds(args[i]) ==> InArg(w, ev.call, i);
    PutAllAt(w.handles, args);
    assert forall c: CallId, i: nat :: InArg(next, c, i) <==> InArg(w, c, i) && c != ev.call;
    assert forall c: CallId, i: nat :: InArg(next, c, i) ==> next.calls[c][i] == w.calls[c][i];
    forall o, p ensures At(next, o, p) <==> o in moved && moved[o] == p {
      assert At(w, o, p) <==> o in ledger && ledger[o] == p;
      if o in ledger { assert At(w, o, ledger[o]); }
      match p
      case InHandle(home) =>
        forall i | 0 <= i < |args| && Holds(args[i]) && args[i].home == home
          ensures At(next, o, p) <==> o in moved && moved[o] == p
        {
          assert At(w, args[i].obj.value, InCall(ev.call, i));
        }
      case _ =>
    }
  }

  lemma {:induction false} StepKeeps(w: World, ledger: map<Obj, Place>, ev: Event, next: World)
    requires Agrees(w, ledger) && Homed(w) && Apply(w, ev) == Some(next)
    ensures Agrees(next, Moved(w, ledger, ev)) && Homed(next)
  {
    match ev
    case Take(_, _, _, _) => TakeKeeps(w, ledger, ev, next);
    case Give(_) => GiveKeeps(w, ledger, ev, next);
    case Drop(_) => DropKeeps(w, ledger, ev, next);
    case NewHandle(_, _) => HandleStepKeeps(w, ledger, ev, next);
    case Begin(_) => HandleStepKeeps(w, ledger, ev, next);
    case HandBack(_) => HandleStepKeeps(w, ledger, ev, next);
    case Close(_) => HandleStepKeeps(w, ledger, ev, next);
  }

  lemma {:induction false} RunKeeps(w: World, ledger: map<Obj, Place>, evs: seq<Event>, end: World)
    returns (last: map<Obj, Place>)
    requires Agrees(w, ledger) && Homed(w) && Run(w, evs) == Some(end)
    ensures Agrees(end, last) && Homed(end)
    decreases |evs|
  {
    if evs == [] { return ledger; }
    var next := Apply(w, evs[0]).value;
    StepKeeps(w, ledger, evs[0], next);
    last := RunKeeps(next, Moved(w, ledger, evs[0]), evs[1..], end);
  }

  /** Over every run each object that ever came is in exactly one place. */
  lemma {:induction false} Conserved(evs: seq<Event>, end: World) returns (ledger: map<Obj, Place>)
    requires Run(EMPTY, evs) == Some(end)
    ensures Agrees(end, ledger) && Homed(end)
    ensures forall o, p, q :: At(end, o, p) && At(end, o, q) ==> p == q
    ensures forall o :: o in end.known ==> At(end, o, ledger[o])
  {
    assert Agrees(EMPTY, map[]);
    ledger := RunKeeps(EMPTY, map[], evs, end);
    forall o | o in end.known ensures At(end, o, ledger[o]) {
      assert o in ledger.Keys;
    }
  }

  // --- what becomes of an argument's object --------------------------------------------

  /** A handle whose object is gone for good. */
  ghost predicate Emptied(w: World, home: Home) {
    && home in w.handles && w.handles[home] == Held.Object(None)
    && forall c: CallId, i: nat :: InArg(w, c, i) ==> w.calls[c][i].home != home
  }

  lemma {:induction false} StepKeepsArg(w: World, ev: Event, next: World, call: CallId, at: nat)
    requires InArg(w, call, at) && ev != Drop(call) && Apply(w, ev) == Some(next)
    ensures call in next.calls && at < |next.calls[call]|
    ensures next.calls[call][at] == if ev == Give(call) then Kept(w.calls[call][at]) else w.calls[call][at]
  {
  }

  lemma {:induction false} StepKeepsEmpty(w: World, ev: Event, next: World, home: Home)
    requires Homed(w) && Emptied(w, home) && Apply(w, ev) == Some(next)
    ensures Emptied(next, home)
  {
    if ev.Drop? {
      var args := w.calls[ev.call];
      assert forall i :: 0 <= i < |args| && Holds(args[i]) ==> InArg(w, ev.call, i);
      PutAllAt(w.handles, args);
    }
    forall c: CallId, i: nat | InArg(next, c, i) ensures next.calls[c][i].home != home {
      assert InArg(w, c, i) || (ev.Take? && ev.home != home);
    }
  }

  lemma {:induction false} HandedStays(w: World, ledger: map<Obj, Place>, evs: seq<Event>, end: World, o: Obj,
        home: Home)
    requires Agrees(w, ledger) && Homed(w) && Run(w, evs) == Some(end)
    requires o in w.callee && Emptied(w, home)
    ensures o in end.callee && Emptied(end, home)
    decreases |evs|
  {
    if evs != [] {
      var next := Apply(w, evs[0]).value;
      StepKeeps(w, ledger, evs[0], next);
      StepKeepsEmpty(w, evs[0], next, home);
      HandedStays(next, Moved(w, ledger, evs[0]), evs[1..], end, o, home);
    }
  }

  /** Whatever other calls do meanwhile, an argument's fate is settled by the time its call
      drops it: unless it was handed over it is in its own handle again, and if it was it is
      the callee's and its handle stays empty. */
  lemma {:induction false} Fate(w: World, ledger: map<Obj, Place>, evs: seq<Event>, end: World, call: CallId, at: nat)
    requires Agrees(w, ledger) && Homed(w) && InArg(w, call, at)
    requires Drop(call) !in evs && Run(w, evs + [Drop(call)]) == Some(end)
    ensures var arg := w.calls[call][at];
      if arg.LentOwned? || Give(call) !in evs
      then arg.home in end.handles && end.handles[arg.home] == Held.Object(arg.obj)
      else arg.obj.value in end.callee && Emptied(end, arg.home)
    decreases |evs|
  {
    var arg, all := w.calls[call][at], evs + [Drop(call)];
    var next := Apply(w, all[0]).value;
    if evs == [] {
      var args := w.calls[call];
      assert forall i :: 0 <= i < |args| && Holds(args[i]) ==> InArg(w, call, i);
      PutAllAt(w.handles, args);
      assert all[1..] == [];
    } else {
      var ev := evs[0];
      assert all[0] == ev && all[1..] == evs[1..] + [Drop(call)];
      assert evs == [ev] + evs[1..];
      StepKeeps(w, ledger, ev, next);
      StepKeepsArg(w, ev, next, call, at);
      if ev == Give(call) && arg.Object? {
        assert Emptied(next, arg.home) by {
          forall c: CallId, i: nat | InArg(next, c, i) ensures next.calls[c][i].home != arg.home {
            assert InArg(w, c, i) && !(c == call && i == at);
          }
        }
        HandedStays(next, Moved(w, ledger, ev), all[1..], end, arg.obj.value, arg.home);
      } else {
        Fate(next, Moved(w, ledger, ev), evs[1..], end, call, at);
      }
    }
  }
}
