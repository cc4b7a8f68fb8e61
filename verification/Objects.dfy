/** A script's handles on a host's objects, and what becomes of the objects when the
    handles are arguments of calls. */
module Objects {
  import opened Texts

  type Obj = nat
  type Lend = nat

  /** What a handle is on: a provider for good, an object while the slot holds one, or a lend
      that ends with its call. */
  datatype Held = Provider | Object(slot: Option<Obj>) | Lent(lend: Lend)

  datatype Pass = Borrowed | Taken | Lend

  /** A prepared argument; home is the handle its object left, where it may have to go back. */
  datatype Prepared<O> =
    | Data(text: Text)
    | TakenData(rest: Option<Text>)
    | Object(obj: Option<Obj>, home: O)
    | LentOwned(obj: Option<Obj>, home: O)
    | LentPassed(lend: Lend)

  /** An argument as the callee takes it. */
  datatype Arg =
    | Nothing
    | Data(text: Text)
    | TakenData(text: Text)
    | Object(obj: Obj)
    | LentOwn(obj: Obj)
    | LentOn(lend: Lend)

  predicate Holds<O>(p: Prepared<O>) {
    (p.Object? || p.LentOwned?) && p.obj.Some?
  }

  /** Whether a handle of the right kind can be an argument crossing as pass. */
  predicate Crosses(held: Held, pass: Pass) {
    match held
    case Provider => false
    case Object(slot) => slot.Some?
    case Lent(_) => pass == Lend
  }

  /** The argument it becomes, and what is left in it. */
  function Argued<O>(held: Held, pass: Pass, home: O): (Prepared<O>, Held)
    requires Crosses(held, pass)
  {
    match held
    case Object(slot) =>
      (if pass == Taken then Prepared.Object(slot, home) else Prepared.LentOwned(slot, home), Held.Object(None))
    case Lent(lend) => (LentPassed(lend), held)
  }

  /** The argument the callee is given; alive are the lends that still last. */
  function Given<O>(p: Prepared<O>, alive: set<Lend>): Arg {
    match p
    case Data(text) => Arg.Data(text)
    case TakenData(rest) => Arg.TakenData(if rest.Some? then rest.value else [])
    case Object(obj, _) => if obj.Some? then Arg.Object(obj.value) else Nothing
    case LentOwned(obj, _) => if obj.Some? then LentOwn(obj.value) else Nothing
    case LentPassed(lend) => if lend in alive then LentOn(lend) else Nothing
  }

  /** What stays on this side: all but what was handed over. */
  function Kept<O>(p: Prepared<O>): Prepared<O> {
    match p
    case TakenData(_) => Prepared.TakenData(None)
    case Object(_, home) => Prepared.Object(None, home)
    case _ => p
  }

  /** Data and trees are given as they are; an object as handed over or lent, while this side has
      it; a lend passed on while it lasts. */
  lemma GivenAsPrepared<O>(p: Prepared<O>, alive: set<Lend>)
    ensures p.Data? ==> Given(p, alive) == Arg.Data(p.text)
    ensures p.TakenData? && p.rest.Some? ==> Given(p, alive) == Arg.TakenData(p.rest.value)
    ensures p.Object? && p.obj.Some? ==> Given(p, alive) == Arg.Object(p.obj.value)
    ensures p.LentOwned? && p.obj.Some? ==> Given(p, alive) == LentOwn(p.obj.value)
    ensures p.LentPassed? ==> Given(p, alive) == if p.lend in alive then LentOn(p.lend) else Nothing
  {
  }

  /** What is handed over is given once: a second time there is nothing of it to give, while
      what is only lent is given again. */
  lemma GivenOnce<O>(p: Prepared<O>, alive: set<Lend>)
    ensures p.TakenData? ==> Given(Kept(p), alive) == Arg.TakenData([])
    ensures p.Object? ==> Given(Kept(p), alive) == Nothing && Kept(p) == Prepared.Object(None, p.home)
    ensures !p.TakenData? && !p.Object? ==> Kept(p) == p
  {
  }

  function PutBack(held: Held, obj: Obj): Held {
    if held.Object? then Held.Object(Some(obj)) else held
  }

  // --- one call --------------------------------------------------------------------------

  class Handle {
    const kind: Text
    var held: Held

    constructor (kind: Text, held: Held)
      ensures this.kind == kind && this.held == held
    {
      this.kind, this.held := kind, held;
    }

    /** Takes the object out as an argument of kind, or refuses and changes nothing. */
    method Argument(kind: Text, pass: Pass) returns (r: Option<Prepared<Handle>>)
      modifies this
      ensures r.Some? ==> kind == this.kind && (old(held).Object? || (old(held).Lent? && pass == Lend))
      ensures kind == this.kind && old(held).Lent? && pass == Lend ==> r.Some?
      ensures kind == this.kind && old(held).Object? ==> r.Some? == old(held).slot.Some?
      ensures r.None? ==> held == old(held)
      ensures r.Some? ==> (r.value, held) == Argued(old(held), pass, this)
      ensures r.Some? && old(held).Lent? ==> r.value == LentPassed(old(held).lend) && held == old(held)
      ensures r.Some? && old(held).Object? ==> held == Held.Object(None)
      ensures r.Some? && old(held).Object? ==>
        r.value == if pass == Taken then Prepared.Object(old(held).slot, this) else LentOwned(old(held).slot, this)
    {
      if kind != this.kind { return None; }
      match held
      case Object(slot) =>
        if slot.None? { return None; }
        held := Held.Object(None);
        r := Some(if pass == Taken then Prepared.Object(slot, this) else Prepared.LentOwned(slot, this));
      case Lent(lend) =>
        r := if pass == Lend then Some(LentPassed(lend)) else None;
      case Provider =>
        r := None;
    }

    /** The handle has obj again, unless it is of another sort: kept says which. */
    method TakeBack(obj: Obj) returns (kept: bool)
      modifies this
      ensures held == PutBack(old(held), obj) && kept == old(held).Object?
      ensures if kept then held == Held.Object(Some(obj)) else held == old(held)
    {
      kept := held.Object?;
      if kept { held := Held.Object(Some(obj)); }
    }

    /** The object leaves the handle when it is of this kind and still there, and only then: a
        second hand-back is refused. */
    method HandBack(kind: Text) returns (r: Option<Obj>)
      modifies this
      ensures r.Some? == (kind == this.kind && old(held).Object? && old(held).slot.Some?)
      ensures r.None? ==> held == old(held)
      ensures r.Some? ==> old(held).slot == r && held == Held.Object(None)
    {
      if kind != this.kind || !held.Object? { return None; }
      r := held.slot;
      if r.Some? { held := Held.Object(None); }
    }
  }

  /** Lends each handle in turn, each lend inside the one before, and answers the lends
      they came to. */
  method Lending(lends: seq<Lend>, alive: set<Lend>, lent: seq<Option<Lend>>) returns (all: seq<Option<Lend>>)
    ensures |all| == |lent| + |lends| && all[..|lent|] == lent
    ensures forall k :: 0 <= k < |lends| ==> all[|lent| + k] == if lends[k] in alive then Some(lends[k]) else None
    decreases |lends|
  {
    if lends == [] { return lent; }
    var obj := if lends[0] in alive then Some(lends[0]) else None;
    all := Lending(lends[1..], alive, lent + [obj]);
    assert all[..|lent|] == lent && all[|lent|] == obj;
    forall k | 0 < k < |lends|
      ensures all[|lent| + k] == if lends[k] in alive then Some(lends[k]) else None
    {
      assert lends[k] == lends[1..][k - 1];
    }
  }

  /** The lends passed on among the first n arguments, in order. */
  function Passed<O>(args: seq<Prepared<O>>): (r: seq<Lend>) {
    if args == [] then []
    else Passed(args[..|args| - 1]) + (if args[|args| - 1].LentPassed? then [args[|args| - 1].lend] else [])
  }

  lemma {:induction false} PassedPrefix<O>(args: seq<Prepared<O>>, i: nat)
    requires i < |args|
    ensures |Passed(args[..i])| <= |Passed(args)|
    ensures args[i].LentPassed? ==>
      |Passed(args[..i])| < |Passed(args)| && Passed(args)[|Passed(args[..i])|] == args[i].lend
    ensures |Passed(args[..i + 1])| == |Passed(args[..i])| + if args[i].LentPassed? then 1 else 0
  {
    assert args[..i + 1][..i] == args[..i];
    if i + 1 < |args| {
      PassedPrefix(args[..|args| - 1], i);
      assert args[..|args| - 1][..i] == args[..i];
    } else {
      assert args[..i + 1] == args;
    }
  }

  class PreparedArgs {
    var args: seq<Prepared<Handle>>

    ghost function Homes(): set<Handle>
      reads this
    {
      set i | 0 <= i < |args| && Holds(args[i]) :: args[i].home
    }

    /** What is held came out of handles now empty, each out of one of its own. */
    ghost predicate Valid()
      reads this, Homes()
    {
      && (forall i :: 0 <= i < |args| && Holds(args[i]) ==> args[i].home.held == Held.Object(None))
      && (forall i, j :: 0 <= i < j < |args| && Holds(args[i]) && Holds(args[j]) ==> args[i].home != args[j].home)
    }

    constructor ()
      ensures args == []
    {
      args := [];
    }

    method Push(arg: Prepared<Handle>)
      modifies this
      ensures args == old(args) + [arg]
    {
      args := args + [arg];
    }

    /** The lends passed on, one for each such argument. */
    method PassedOn() returns (passed: seq<Lend>)
      ensures passed == Passed(args)
    {
      passed := [];
      for i := 0 to |args|
        invariant passed == Passed(args[..i])
      {
        assert args[..i + 1][..i] == args[..i];
        if args[i].LentPassed? { passed := passed + [args[i].lend]; }
      }
      assert args[..|args|] == args;
    }

    /** The i-th argument as the callee takes it; next is the lend next in line. */
    method GiveOne(i: nat, next: Option<Lend>, ghost alive: set<Lend>) returns (arg: Arg)
      requires i < |args|
      requires args[i].LentPassed? ==> next == if args[i].lend in alive then Some(args[i].lend) else None
      modifies this
      ensures arg == Given(old(args)[i], alive) && args == old(args)[i := Kept(old(args)[i])]
    {
      match args[i]
      case Data(text) => arg := Arg.Data(text);
      case TakenData(rest) =>
        arg := Arg.TakenData(if rest.Some? then rest.value else []);
        args := args[i := Prepared.TakenData(None)];
      case Object(obj, home) =>
        arg := if obj.Some? then Arg.Object(obj.value) else Nothing;
        args := args[i := Prepared.Object(None, home)];
      case LentOwned(obj, _) =>
        arg := if obj.Some? then LentOwn(obj.value) else Nothing;
      case LentPassed(_) =>
        arg := if next.Some? then LentOn(next.value) else Nothing;
    }

    /** The arguments as the callee takes them: each lend passed on is at the place of the
        argument it is for, and what is handed over leaves this side. */
    method WithArgs(alive: set<Lend>) returns (given: seq<Arg>)
      modifies this
      ensures |given| == |old(args)| == |args|
      ensures forall i :: 0 <= i < |args| ==> given[i] == Given(old(args)[i], alive)
      ensures forall i :: 0 <= i < |args| ==> args[i] == Kept(old(args)[i])
    {
      ghost var were := args;
      var passed := PassedOn();
      var lent := Lending(passed, alive, []);
      var next := 0;
      given := [];
      for i := 0 to |args|
        invariant |args| == |were| && |given| == i
        invariant forall k :: i <= k < |args| ==> args[k] == were[k]
        invariant next == |Passed(were[..i])|
        invariant forall k :: 0 <= k < i ==> given[k] == Given(were[k], alive) && args[k] == Kept(were[k])
      {
        PassedPrefix(were, i);
        var arg := GiveOne(i, if args[i].LentPassed? then lent[next] else None, alive);
        if args[i].LentPassed? { next := next + 1; }
        given := given + [arg];
      }
    }

    /** Every object not handed over is in its home handle again; none is destroyed. */
    method Drop()
      requires Valid()
      modifies this, Homes()
      ensures args == []
      ensures forall i :: 0 <= i < |old(args)| && Holds(old(args)[i]) ==>
                old(args)[i].home.held == Held.Object(old(args)[i].obj)
    {
      ghost var homes := Homes();
      while args != []
        invariant Valid() && Homes() <= homes
        invariant |args| <= |old(args)| && args == old(args)[|old(args)| - |args|..]
        invariant forall i :: 0 <= i < |old(args)| - |args| && Holds(old(args)[i]) ==>
                    old(args)[i].home.held == Held.Object(old(args)[i].obj)
        decreases |args|
      {
        var arg := args[0];
        assert args[1..] == old(args)[|old(args)| - |args| + 1..];
        assert forall i :: 1 <= i < |args| ==> args[1..][i - 1] == args[i];
        args := args[1..];
        if (arg.Object? || arg.LentOwned?) && arg.obj.Some? {
          var kept := arg.home.TakeBack(arg.obj.value);
          assert kept;
        }
      }
    }
  }

  /** What taking an argument out of a handle leaves in it. */
  function Emptied(held: Held): Held {
    if held.Object? then Held.Object(None) else held
  }

  /** What the handles hold. */
  ghost function Helds(handles: seq<Handle>): (r: seq<Held>)
    reads handles
    ensures |r| == |handles| && forall i :: 0 <= i < |handles| ==> r[i] == handles[i].held
  {
    seq(|handles|, i requires 0 <= i < |handles| reads handles => handles[i].held)
  }

  /** The i-th argument is not refused: of its kind, to be passed as it crosses, and not
      an object an argument before it took out. */
  ghost predicate Accepted(handles: seq<Handle>, helds: seq<Held>, kinds: seq<Text>, passes: seq<Pass>, i: nat)
    requires i < |handles| == |helds| == |kinds| == |passes|
  {
    && kinds[i] == handles[i].kind
    && Crosses(helds[i], passes[i])
    && (helds[i].Object? ==> handles[i] !in handles[..i])
  }

  /** The arguments are what the first handles held, and nows what the handles hold since. */
  ghost predicate Drawn(
    args: seq<Prepared<Handle>>, handles: seq<Handle>, helds: seq<Held>, nows: seq<Held>, passes: seq<Pass>)
    requires |args| <= |handles| == |helds| == |nows| == |passes|
  {
    && (forall k :: 0 <= k < |args| ==> (Crosses(helds[k], passes[k])
          && (helds[k].Object? ==> handles[k] !in handles[..k])
          && args[k] == Argued(helds[k], passes[k], handles[k]).0))
    && (forall k :: 0 <= k < |handles| ==>
          nows[k] == if handles[k] in handles[..|args|] then Emptied(helds[k]) else helds[k])
  }

  /** What handle i is left with, and all its other mentions, once it is held. */
  ghost predicate Replaced(handles: seq<Handle>, nows: seq<Held>, i: nat, held: Held, nexts: seq<Held>)
    requires i < |handles| == |nows| == |nexts|
  {
    forall k :: 0 <= k < |handles| ==> nexts[k] == if handles[k] == handles[i] then held else nows[k]
  }

  ghost predicate Coherent(handles: seq<Handle>, helds: seq<Held>)
    requires |handles| == |helds|
  {
    forall j, k :: 0 <= j < k < |handles| && handles[j] == handles[k] ==> helds[j] == helds[k]
  }

  lemma DrawsOne(args: seq<Prepared<Handle>>, handles: seq<Handle>, helds: seq<Held>, nows: seq<Held>,
                 passes: seq<Pass>, nexts: seq<Held>)
    requires |args| < |handles| == |helds| == |nows| == |passes| == |nexts|
    requires Coherent(handles, helds)
    requires Drawn(args, handles, helds, nows, passes)
    ensures var i := |args|;
      Crosses(nows[i], passes[i])
      == (Crosses(helds[i], passes[i]) && (helds[i].Object? ==> handles[i] !in handles[..i]))
    ensures var i := |args|;
      Crosses(nows[i], passes[i]) && Replaced(handles, nows, i, Argued(nows[i], passes[i], handles[i]).1, nexts)
      ==> Drawn(args + [Argued(nows[i], passes[i], handles[i]).0], handles, helds, nexts, passes)
  {
    var i := |args|;
    assert handles[..i + 1] == handles[..i] + [handles[i]];
  }

  /** Takes the next argument out of its handle. */
  method DrawOne(prepared: PreparedArgs, handles: seq<Handle>, kinds: seq<Text>, passes: seq<Pass>,
        ghost helds: seq<Held>)
    returns (ok: bool)
    requires |prepared.args| < |handles| == |kinds| == |passes| == |helds|
    requires Coherent(handles, helds)
    requires Drawn(prepared.args, handles, helds, Helds(handles), passes)
    modifies prepared, handles[|prepared.args|]
    ensures ok == Accepted(handles, helds, kinds, passes, |old(prepared.args)|)
    ensures |prepared.args| == |old(prepared.args)| + if ok then 1 else 0
    ensures Drawn(prepared.args, handles, helds, Helds(handles), passes)
  {
    ghost var nows, args := Helds(handles), prepared.args;
    var i := |prepared.args|;
    var arg := handles[i].Argument(kinds[i], passes[i]);
    DrawsOne(args, handles, helds, nows, passes, Helds(handles));
    ok := arg.Some?;
    if ok {
      prepared.Push(arg.value);
    } else {
      assert Helds(handles) == nows;
    }
  }

  /** Takes the arguments out of their handles up to the first refused. */
  method Prepare(handles: seq<Handle>, kinds: seq<Text>, passes: seq<Pass>) returns (prepared: PreparedArgs, ok: bool)
    requires |handles| == |kinds| == |passes|
    modifies handles
    ensures fresh(prepared) && |prepared.args| <= |handles|
    ensures ok == forall i :: 0 <= i < |handles| ==> Accepted(handles, old(Helds(handles)), kinds, passes, i)
    ensures ok ==> |prepared.args| == |handles|
    ensures Drawn(prepared.args, handles, old(Helds(handles)), Helds(handles), passes)
  {
    prepared := new PreparedArgs();
    ghost var helds := Helds(handles);
    ok := true;
    while ok && |prepared.args| < |handles|
      invariant fresh(prepared) && |prepared.args| <= |handles|
      invariant forall k :: 0 <= k < |prepared.args| ==> Accepted(handles, helds, kinds, passes, k)
      invariant !ok ==> |prepared.args| < |handles| && !Accepted(handles, helds, kinds, passes, |prepared.args|)
      invariant Drawn(prepared.args, handles, helds, Helds(handles), passes)
      decreases ok, |handles| - |prepared.args|
    {
      ok := DrawOne(prepared, handles, kinds, passes, helds);
    }
  }

  /** What a call made of an argument: the callee has it exactly if it is handed over, and
      else it is where it was. */
  ghost predicate Settled(arg: Arg, was: Held, pass: Pass, alive: set<Lend>, now: Held) {
    match arg
    case Object(obj) => was == Held.Object(Some(obj)) && pass == Taken && now == Held.Object(None)
    case LentOwn(obj) => was == Held.Object(Some(obj)) && pass != Taken && now == was
    case LentOn(lend) => was == Held.Lent(lend) && pass == Lend && lend in alive && now == was
    case Nothing => was.Lent? && pass == Lend && was.lend !in alive && now == was
    case _ => false
  }

  lemma DrawnApart(args: seq<Prepared<Handle>>, handles: seq<Handle>, helds: seq<Held>, nows: seq<Held>,
                   passes: seq<Pass>, j: nat, k: nat)
    requires |args| <= |handles| == |helds| == |nows| == |passes| && Coherent(handles, helds)
    requires Drawn(args, handles, helds, nows, passes)
    requires j < |args| && k < |args| && j != k && Holds(args[j])
    ensures handles[j] != handles[k]
  {
  }

  lemma DrawnIsValid(prepared: PreparedArgs, args: seq<Prepared<Handle>>, handles: seq<Handle>,
                     helds: seq<Held>, passes: seq<Pass>)
    requires |prepared.args| == |args| <= |handles| == |helds| == |passes| && Coherent(handles, helds)
    requires Drawn(args, handles, helds, Helds(handles), passes)
    requires forall k :: 0 <= k < |args| ==> prepared.args[k] == args[k] || prepared.args[k] == Kept(args[k])
    ensures forall k :: 0 <= k < |args| && Holds(prepared.args[k]) ==> Holds(args[k])
    ensures forall k :: 0 <= k < |args| && Holds(args[k]) ==>
      && handles[k].held == Held.Object(None)
      && (Holds(prepared.args[k]) ==>
        prepared.args[k].home == handles[k] && helds[k] == Held.Object(prepared.args[k].obj))
    ensures forall k :: 0 <= k < |args| && !Holds(args[k]) ==> handles[k].held == helds[k]
    ensures forall j, k :: 0 <= j < |args| && 0 <= k < |args| && j != k && Holds(args[j]) ==> handles[j] != handles[k]
  {
    forall j, k | 0 <= j < |args| && 0 <= k < |args| && j != k && Holds(args[j]) ensures handles[j] != handles[k] {
      DrawnApart(args, handles, helds, Helds(handles), passes, j, k);
    }
    forall k | 0 <= k < |args| ensures handles[k] in handles[..|args|] {
      assert handles[..|args|][k] == handles[k];
    }
  }

  /** Gives what is held back to handles it was drawn from: each is as it was, but for the
      objects no longer held. */
  method Return(prepared: PreparedArgs, ghost args: seq<Prepared<Handle>>, handles: seq<Handle>,
                ghost helds: seq<Held>, ghost passes: seq<Pass>)
    requires |prepared.args| == |args| <= |handles| == |helds| == |passes| && Coherent(handles, helds)
    requires Drawn(args, handles, helds, Helds(handles), passes)
    requires forall k :: 0 <= k < |args| ==> prepared.args[k] == args[k] || prepared.args[k] == Kept(args[k])
    modifies prepared, handles
    ensures forall k :: 0 <= k < |args| ==>
      handles[k].held == if Holds(args[k]) && !Holds(old(prepared.args)[k]) then Held.Object(None) else helds[k]
    ensures forall k :: |args| <= k < |handles| && handles[k] !in handles[..|args|] ==> handles[k].held == helds[k]
  {
    DrawnIsValid(prepared, args, handles, helds, passes);
    prepared.Drop();
  }

  lemma SettlesEach(was: Held, pass: Pass, home: Handle, alive: set<Lend>, now: Held)
    requires Crosses(was, pass)
    requires var p := Argued(was, pass, home).0; now == if Holds(p) && !Holds(Kept(p)) then Held.Object(None) else was
    ensures Settled(Given(Argued(was, pass, home).0, alive), was, pass, alive, now)
  {
  }

  /** A whole call with handles as its arguments. A refused one changes no handle; after one
      that is made a handle is changed only if its object was handed over. */
  method Call(handles: seq<Handle>, kinds: seq<Text>, passes: seq<Pass>, alive: set<Lend>)
    returns (given: Option<seq<Arg>>)
    requires |handles| == |kinds| == |passes|
    modifies handles
    ensures given.Some? == forall i :: 0 <= i < |handles| ==> Accepted(handles, old(Helds(handles)), kinds, passes, i)
    ensures given.None? ==> Helds(handles) == old(Helds(handles))
    ensures given.Some? ==> |given.value| == |handles| && forall i :: 0 <= i < |handles| ==>
      Settled(given.value[i], old(Helds(handles))[i], passes[i], alive, handles[i].held)
  {
    ghost var helds := Helds(handles);
    var prepared, ok := Prepare(handles, kinds, passes);
    ghost var drawn := prepared.args;
    if !ok {
      Return(prepared, drawn, handles, helds, passes);
      forall k | 0 <= k < |handles| ensures handles[k].held == helds[k] {
        if handles[k] in handles[..|drawn|] {
          var j :| 0 <= j < |drawn| && handles[j] == handles[k];
        }
      }
      given := None;
    } else {
      var args := prepared.WithArgs(alive);
      Return(prepared, drawn, handles, helds, passes);
      forall i | 0 <= i < |handles| ensures Settled(args[i], helds[i], passes[i], alive, handles[i].held) {
        SettlesEach(helds[i], passes[i], handles[i], alive, handles[i].held);
      }
      given := Some(args);
    }
  }
}
