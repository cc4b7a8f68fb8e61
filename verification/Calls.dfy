/** The caller's side of a call: an account of all that is handed over, lent or allocated for
    it, and of how each is settled, run, undone or freed by the end. */
module Calls {
  import opened Texts

  type Node = nat
  type Obj = nat

  datatype Gift = Tree(node: Node) | Object(obj: Obj)

  datatype LentTree = LentTree(node: Node, home: nat, isMap: bool)

  /** What runs after the call: a value built for it closed, an owner kept alive till then,
      a served object released. */
  datatype After = CloseBuilt(value: nat) | Keep(owner: nat) | Release(ctx: nat)

  datatype Item =
    | Lent(tree: LentTree)
    | After(after: After, turn: nat)
    | Gift(gift: Gift)
    | Block(node: Node)
    | Answer(node: Node)

  datatype OutShape = Nothing | OutTree | OutValue | OutText | OutObject

  /** done are the lent trees settled, the cleanups run, the hand-overs undone, the blocks
      and the answer freed, in order; passed what became the callee's. next
      numbers what is made for the call. */
  datatype State = State(
    called: bool,
    blocks: seq<Item>,
    after: seq<Item>,
    given: seq<Item>,
    lent: seq<Item>,
    out: Node,
    outShape: OutShape,
    next: nat,
    done: seq<Item>,
    passed: multiset<Item>)

  const BEGUN: State := State(false, [], [], [], [], 0, Nothing, 0, [], multiset{})

  // --- what each step makes of a call ------------------------------------------------------

  /** How far a hand-over came: refused before anything was made, refused while the tree was
      built, or kept for the call, whose kind may then still be refused. */
  datatype Made = Refused | Unwritten | Kept

  datatype Event =
    | Take(made: Made)
    | TakeObject(obj: Option<Obj>)
    | LendObject(remote: bool, ctx: Option<nat>)
    | Lend(tree: Option<LentTree>, owner: nat)
    | Borrow(cleanup: Option<After>)
    | Out(shape: OutShape)
    | Slot
    | Status(ok: bool, settles: bool)
    | End

  function Backwards(s: seq<Item>): (r: seq<Item>)
    ensures multiset(r) == multiset(s)
  {
    if s == [] then []
    else
      assert s == s[..|s| - 1] + [s[|s| - 1]];
      [s[|s| - 1]] + Backwards(s[..|s| - 1])
  }

  /** Last first: each item at the place as far from the front as it was from the back. */
  lemma {:induction false} BackwardsAt(s: seq<Item>, k: nat)
    requires k < |s|
    ensures |Backwards(s)| == |s| && Backwards(s)[k] == s[|s| - 1 - k]
    decreases |s|
  {
    if |s| > 1 { BackwardsAt(s[..|s| - 1], if k > 0 then k - 1 else 0); }
  }

  function Settled(s: State): State {
    s.(lent := [], done := s.done + s.lent)
  }

  /** What the call makes of a step. */
  function Apply(s: State, ev: Event): State {
    match ev
    case Take(made) =>
      (match made
       case Refused => s
       case Unwritten => s.(next := s.next + 1, done := s.done + [Block(s.next)])
       case Kept => s.(next := s.next + 1, blocks := s.blocks + [Block(s.next)],
         given := s.given + [Item.Gift(Gift.Tree(s.next))]))
    case TakeObject(obj) => if obj.None? then s else s.(given := s.given + [Item.Gift(Gift.Object(obj.value))])
    case LendObject(remote, ctx) =>
      if ctx.None? && !remote then s
      else
        var t := if remote then s else s.(after := s.after + [After(Release(ctx.value), s.next)]);
        t.(next := s.next + 1, blocks := s.blocks + [Block(s.next)])
    case Lend(tree, owner) =>
      if tree.None? then s
      else s.(next := s.next + 1, after := s.after + [After(Keep(owner), s.next)],
        lent := s.lent + [Item.Lent(tree.value)])
    case Borrow(cleanup) =>
      if cleanup.None? then s else s.(next := s.next + 1, after := s.after + [After(cleanup.value, s.next)])
    case Out(shape) => s.(next := s.next + 1, blocks := s.blocks + [Block(s.next)], out := s.next, outShape := shape)
    case Slot => s.(next := s.next + 1, blocks := s.blocks + [Block(s.next)])
    case Status(ok, settles) =>
      var t := Settled(s).(called := true);
      if ok && !settles && s.lent != [] then
        t.(outShape := Nothing, done := t.done + if s.outShape == Nothing then [] else [Answer(s.out)])
      else t
    case End =>
      var t := Settled(s).(blocks := [], after := [], given := []);
      var ran := t.done + Backwards(s.after);
      if s.called
      then t.(done := ran + s.blocks, passed := s.passed + multiset(s.given))
      else t.(done := ran + Backwards(s.given) + s.blocks)
  }

  function Run(s: State, evs: seq<Event>): State
    decreases |evs|
  {
    if evs == [] then s else Run(Apply(s, evs[0]), evs[1..])
  }

  // --- the call --------------------------------------------------------------------------

  /** Why a tree cannot be handed over, or what it is: a Value's own root, or data built. */
  datatype Source = Moved(kindFits: bool, open: bool) | Data(writes: bool, kindFits: bool)

  /** How far Take comes with x. */
  function MadeOf(core: bool, x: Source): Made {
    if !core then Refused
    else match x
      case Moved(kindFits, open) => if kindFits && open then Kept else Refused
      case Data(writes, _) => if writes then Kept else Unwritten
  }

  class Call {
    var called: bool
    var blocks: seq<Item>
    var after: seq<Item>
    var given: seq<Item>
    var lent: seq<Item>
    var out: Node
    var outShape: OutShape
    var next: nat
    ghost var done: seq<Item>
    ghost var passed: multiset<Item>

    ghost function Now(): State
      reads this
    {
      State(called, blocks, after, given, lent, out, outShape, next, done, passed)
    }

    constructor ()
      ensures Now() == BEGUN
    {
      called, blocks, after, given, lent, out, outShape := false, [], [], [], [], 0, Nothing;
      next, done, passed := 0, [], multiset{};
    }

    method NewBlock() returns (at: Node)
      modifies this`blocks, this`next
      ensures at == old(next) && next == old(next) + 1 && blocks == old(blocks) + [Block(at)]
    {
      at := next;
      next := next + 1;
      blocks := blocks + [Block(at)];
    }

    /** Hands x over; false for a refusal, which may come once the call already keeps it. */
    method Take(core: bool, x: Source) returns (ok: bool)
      modifies this
      ensures Now() == Apply(old(Now()), Event.Take(MadeOf(core, x)))
      ensures !core || (x.Moved? && !(x.kindFits && x.open)) ==> !ok && Now() == old(Now())
      ensures core && x.Data? && !x.writes ==>
        !ok && given == old(given) && blocks == old(blocks) && done == old(done) + [Block(old(next))]
      ensures core && (if x.Moved? then x.kindFits && x.open else x.writes) ==>
        && ok == x.kindFits && done == old(done)
        && given == old(given) + [Item.Gift(Gift.Tree(old(next)))] && blocks == old(blocks) + [Block(old(next))]
    {
      if !core { return false; }
      match x {
        case Moved(kindFits, open) =>
          if !kindFits || !open { return false; }
        case Data(writes, _) =>
          if !writes {
            done := done + [Block(next)];
            next := next + 1;
            return false;
          }
      }
      var node := NewBlock();
      given := given + [Item.Gift(Gift.Tree(node))];
      ok := x.kindFits;
    }

    method TakeObject(obj: Option<Obj>) returns (ok: bool)
      modifies this`given
      ensures Now() == Apply(old(Now()), Event.TakeObject(obj)) && ok == obj.Some?
    {
      ok := obj.Some?;
      if ok { given := given + [Item.Gift(Gift.Object(obj.value))]; }
    }

    /** Lends a remote's object, or one served for the call under ctx. */
    method LendObject(remote: bool, ctx: Option<nat>) returns (ok: bool)
      modifies this
      ensures Now() == Apply(old(Now()), Event.LendObject(remote, ctx)) && ok == (remote || ctx.Some?)
    {
      if !remote {
        if ctx.None? { return false; }
        after := after + [Item.After(Release(ctx.value), next)];
      }
      var at := NewBlock();
      ok := true;
    }

    method Lend(tree: Option<LentTree>, owner: nat)
      modifies this
      ensures Now() == Apply(old(Now()), Event.Lend(tree, owner))
    {
      if tree.Some? {
        after := after + [Item.After(Keep(owner), next)];
        lent := lent + [Item.Lent(tree.value)];
        next := next + 1;
      }
    }

    method Borrow(cleanup: Option<After>)
      modifies this
      ensures Now() == Apply(old(Now()), Event.Borrow(cleanup))
    {
      if cleanup.Some? {
        after := after + [Item.After(cleanup.value, next)];
        next := next + 1;
      }
    }

    /** A slot for an answer this side will own. */
    method Out(shape: OutShape)
      modifies this
      ensures Now() == Apply(old(Now()), Event.Out(shape))
    {
      out := NewBlock();
      outShape := shape;
    }

    /** A slot for a scalar answer or for the call's error, which owns nothing. */
    method Slot() returns (at: Node)
      modifies this
      ensures Now() == Apply(old(Now()), Event.Slot) && at == old(next)
    {
      at := NewBlock();
    }

    /** Settles every lent tree, each once; true when none was refused. */
    method Settle(refuses: Item -> bool) returns (ok: bool)
      modifies this`lent, this`done
      ensures Now() == Settled(old(Now())) && ok == forall t :: t in old(lent) ==> !refuses(t)
    {
      ok := true;
      for i := 0 to |lent|
        invariant lent == old(lent) && done == old(done) + lent[..i]
        invariant ok == forall k :: 0 <= k < i ==> !refuses(lent[k])
      {
        assert lent[..i + 1][..i] == lent[..i];
        if refuses(lent[i]) && ok { ok := false; }
        done := done + [lent[i]];
      }
      assert lent[..|lent|] == lent;
      lent := [];
    }

    /** The answer in the out slot is freed, if a shape says it holds one, and from then on it
        holds none: a second drop frees nothing. */
    method DropAnswer()
      modifies this`outShape, this`done
      ensures outShape == Nothing
      ensures done == old(done) + if old(outShape) == Nothing then [] else [Answer(out)]
    {
      if outShape != Nothing { done := done + [Answer(out)]; }
      outShape := Nothing;
    }

    /** The call happened and came back: fine when it answered and every tree settled. */
    method Status(ok: bool, refuses: Item -> bool) returns (fine: bool)
      modifies this
      ensures Now() == Apply(old(Now()), Event.Status(ok, forall t :: t in old(lent) ==> !refuses(t)))
      ensures fine == (ok && forall t :: t in old(lent) ==> !refuses(t))
    {
      called := true;
      var settled := Settle(refuses);
      fine := ok && settled;
      if ok && !settled { DropAnswer(); }
    }

    method RunAfter()
      modifies this`done, this`after
      ensures done == old(done) + Backwards(old(after)) && after == []
    {
      var i := |after|;
      assert after[..i] == after;
      while i > 0
        invariant 0 <= i <= |after| && after == old(after)
        invariant old(done) + Backwards(after) == done + Backwards(after[..i])
      {
        assert after[..i][..i - 1] == after[..i - 1] && after[..i][i - 1] == after[i - 1];
        Regroup(done, [after[i - 1]], Backwards(after[..i - 1]));
        i := i - 1;
        done := done + [after[i]];
      }
      after := [];
    }

    method UndoGiven()
      modifies this`done
      ensures done == old(done) + Backwards(given)
    {
      var i := |given|;
      assert given[..i] == given;
      while i > 0
        invariant 0 <= i <= |given|
        invariant old(done) + Backwards(given) == done + Backwards(given[..i])
      {
        assert given[..i][..i - 1] == given[..i - 1] && given[..i][i - 1] == given[i - 1];
        Regroup(done, [given[i - 1]], Backwards(given[..i - 1]));
        i := i - 1;
        done := done + [given[i]];
      }
    }

    method FreeBlocks()
      modifies this`done, this`blocks
      ensures done == old(done) + old(blocks) && blocks == []
    {
      for k := 0 to |blocks|
        invariant blocks == old(blocks) && done == old(done) + blocks[..k]
      {
        assert blocks[..k + 1][..k] == blocks[..k];
        Regroup(old(done), blocks[..k], [blocks[k]]);
        done := done + [blocks[k]];
      }
      assert blocks[..|blocks|] == blocks;
      blocks := [];
    }

    /** The account closed: four lists emptied in turn, each item of each dealt with exactly once,
        and the hand-overs undone only when no status was ever taken. */
    method End()
      modifies this
      ensures Now() == Apply(old(Now()), Event.End)
    {
      hide Backwards;
      ghost var was := Now();
      var settled := Settle(t => false);
      RunAfter();
      ghost var ran := done;
      assert ran == Settled(was).done + Backwards(was.after);
      if called {
        passed := passed + multiset(given);
      } else {
        UndoGiven();
      }
      FreeBlocks();
      given := [];
    }
  }

  // --- every call ------------------------------------------------------------------------

  function One(x: Item, y: Item): nat {
    if x == y then 1 else 0
  }

  function Count(items: seq<Item>, x: Item): nat {
    multiset(items)[x]
  }

  lemma CountBoth(a: seq<Item>, b: seq<Item>, x: Item)
    ensures Count(a + b, x) == Count(a, x) + Count(b, x)
  {
  }

  lemma CountMore(items: seq<Item>, y: Item, x: Item)
    ensures Count(items + [y], x) == Count(items, x) + One(x, y)
  {
  }

  /** How often x is what a call has yet to settle, run, hand over or undo, and free. */
  function Pending(s: State, x: Item): nat {
    Count(s.lent, x) + Count(s.after, x) + Count(s.given, x) + Count(s.blocks, x)
  }

  /** How often a call has had to do with x, wherever it is by now. */
  function Total(s: State, x: Item): nat {
    Pending(s, x) + Count(s.done, x) + s.passed[x]
  }

  /** How often a step has the call answer for x from then on. */
  function Incurred(s: State, ev: Event, x: Item): nat {
    match ev
    case Take(made) =>
      if made == Refused then 0
      else One(x, Block(s.next)) + if made == Kept then One(x, Item.Gift(Gift.Tree(s.next))) else 0
    case TakeObject(obj) => if obj.None? then 0 else One(x, Item.Gift(Gift.Object(obj.value)))
    case LendObject(remote, ctx) =>
      if remote then One(x, Block(s.next))
      else if ctx.Some? then One(x, Item.After(Release(ctx.value), s.next)) + One(x, Block(s.next))
      else 0
    case Lend(tree, owner) =>
      if tree.Some? then One(x, Item.After(Keep(owner), s.next)) + One(x, Lent(tree.value)) else 0
    case Borrow(cleanup) => if cleanup.Some? then One(x, Item.After(cleanup.value, s.next)) else 0
    case Out(_) => One(x, Block(s.next))
    case Slot => One(x, Block(s.next))
    case Status(ok, settles) =>
      if ok && !settles && s.lent != [] && s.outShape != Nothing then One(x, Answer(s.out)) else 0
    case End => 0
  }

  function AllIncurred(s: State, evs: seq<Event>, x: Item): nat
    decreases |evs|
  {
    if evs == [] then 0 else Incurred(s, evs[0], x) + AllIncurred(Apply(s, evs[0]), evs[1..], x)
  }

  lemma {:induction false} EndConserves(s: State, x: Item)
    ensures Total(Apply(s, End), x) == Total(s, x)
  {
  }

  lemma {:induction false} LendingConserves(s: State, ev: Event, x: Item)
    requires ev.LendObject? || ev.Lend? || ev.Borrow?
    ensures Total(Apply(s, ev), x) == Total(s, x) + Incurred(s, ev, x)
  {
    hide Count;
    match ev
    case Lend(tree, owner) =>
      if tree.Some? {
        CountMore(s.after, Item.After(Keep(owner), s.next), x);
        CountMore(s.lent, Lent(tree.value), x);
      }
    case Borrow(cleanup) =>
      if cleanup.Some? { CountMore(s.after, Item.After(cleanup.value, s.next), x); }
    case LendObject(_, ctx) =>
      CountMore(s.blocks, Block(s.next), x);
      if ctx.Some? { CountMore(s.after, Item.After(Release(ctx.value), s.next), x); }
  }

  lemma {:induction false} TakeConserves(s: State, made: Made, x: Item)
    ensures Total(Apply(s, Take(made)), x) == Total(s, x) + Incurred(s, Take(made), x)
  {
    hide Count;
    if made == Kept {
      CountMore(s.blocks, Block(s.next), x);
      CountMore(s.given, Item.Gift(Gift.Tree(s.next)), x);
    } else if made == Unwritten {
      CountMore(s.done, Block(s.next), x);
    }
  }

  lemma {:induction false} HandingConserves(s: State, ev: Event, x: Item)
    requires ev.TakeObject? || ev.Out? || ev.Slot?
    ensures Total(Apply(s, ev), x) == Total(s, x) + Incurred(s, ev, x)
  {
    hide Count;
    if ev.Out? || ev.Slot? {
      CountMore(s.blocks, Block(s.next), x);
    } else if ev.obj.Some? {
      CountMore(s.given, Item.Gift(Gift.Object(ev.obj.value)), x);
    }
  }

  lemma {:induction false} StatusConserves(s: State, ev: Event, x: Item)
    requires ev.Status?
    ensures Total(Apply(s, ev), x) == Total(s, x) + Incurred(s, ev, x)
  {
    assert Count([], x) == 0;
    hide Count;
    CountBoth(s.done, s.lent, x);
    CountMore(s.done + s.lent, Answer(s.out), x);
    assert s.done + s.lent + [] == s.done + s.lent;
  }

  /** No step loses or repeats anything the call answers for. */
  lemma {:induction false} StepConserves(s: State, ev: Event, x: Item)
    ensures Total(Apply(s, ev), x) == Total(s, x) + Incurred(s, ev, x)
  {
    if ev.End? {
      EndConserves(s, x);
    } else if ev.Status? {
      StatusConserves(s, ev, x);
    } else if ev.LendObject? || ev.Lend? || ev.Borrow? {
      LendingConserves(s, ev, x);
    } else if ev.Take? {
      TakeConserves(s, ev.made, x);
    } else {
      HandingConserves(s, ev, x);
    }
  }

  lemma {:induction false} RunConserves(s: State, evs: seq<Event>, x: Item)
    ensures Total(Run(s, evs), x) == Total(s, x) + AllIncurred(s, evs, x)
    decreases |evs|
  {
    if evs != [] {
      StepConserves(s, evs[0], x);
      RunConserves(Apply(s, evs[0]), evs[1..], x);
    }
  }

  /** Ended, once or more often, after any steps in any order: everything the call had to do
      with was settled, run, undone or freed as often as it was made, or is the callee's. */
  lemma {:induction false} NothingLeft(evs: seq<Event>)
    ensures var s := Run(BEGUN, evs + [End]);
      && s.lent == [] && s.after == [] && s.given == [] && s.blocks == []
      && (forall x :: multiset(s.done)[x] + s.passed[x] == AllIncurred(BEGUN, evs + [End], x))
  {
    var all := evs + [End];
    var s := Run(BEGUN, all);
    RunAll(BEGUN, evs, [End]);
    forall x ensures multiset(s.done)[x] + s.passed[x] == AllIncurred(BEGUN, all, x) {
      RunConserves(BEGUN, all, x);
    }
  }

  lemma {:induction false} RunAll(s: State, first: seq<Event>, rest: seq<Event>)
    ensures Run(s, first + rest) == Run(Run(s, first), rest)
    decreases |first|
  {
    var all := first + rest;
    if first == [] {
      assert all == rest;
    } else {
      assert all[0] == first[0] && all[1..] == first[1..] + rest;
      RunAll(Apply(s, first[0]), first[1..], rest);
    }
  }

  lemma NamesFresh(s: State, ev: Event, x: Item, n: Node)
    requires x == Block(n) || x == Item.Gift(Gift.Tree(n)) || (x.After? && x.turn == n)
    ensures Incurred(s, ev, x) <= if n == s.next && Apply(s, ev).next == n + 1 then 1 else 0
    ensures s.next <= Apply(s, ev).next
  {
  }

  /** Blocks, trees and what runs after the call are never named twice, so each is freed, undone
      or run at most once. */
  lemma {:induction false} NamedOnce(s: State, evs: seq<Event>, x: Item, n: Node)
    requires x == Block(n) || x == Item.Gift(Gift.Tree(n)) || (x.After? && x.turn == n)
    ensures AllIncurred(s, evs, x) <= if n < s.next then 0 else 1
    decreases |evs|
  {
    if evs != [] {
      NamesFresh(s, evs[0], x, n);
      NamedOnce(Apply(s, evs[0]), evs[1..], x, n);
    }
  }

  /** A slot's answer is dropped at most once, however often a status would drop it. */
  lemma {:induction false} DroppedOnce(s: State, evs: seq<Event>, n: Node)
    requires s.outShape != Nothing ==> s.out < s.next
    ensures AllIncurred(s, evs, Answer(n))
         <= if n < s.next && !(n == s.out && s.outShape != Nothing) then 0 else 1
    decreases |evs|
  {
    if evs != [] { DroppedOnce(Apply(s, evs[0]), evs[1..], n); }
  }

  lemma {:induction false} AnswerFreedOnce(evs: seq<Event>, n: Node)
    ensures Count(Run(BEGUN, evs).done, Answer(n)) <= 1
  {
    DroppedOnce(BEGUN, evs, n);
    RunConserves(BEGUN, evs, Answer(n));
  }

  // --- each hand-over --------------------------------------------------------------------

  ghost predicate Sorted(s: State) {
    && (forall x :: x in s.lent ==> x.Lent?)
    && (forall x :: x in s.after ==> x.After?)
    && (forall x :: x in s.given ==> x.Gift?)
    && (forall x :: x in s.blocks ==> x.Block?)
  }

  lemma {:induction false} BackwardsHas(items: seq<Item>)
    ensures forall x :: x in Backwards(items) <==> x in items
  {
    forall x ensures x in Backwards(items) <==> x in items {
      assert x in multiset(Backwards(items)) <==> x in multiset(items);
    }
  }

  /** Nothing handed over is the callee's while no call happened; once one did, nothing is
      undone any more. */
  lemma {:induction false} StepHands(s: State, ev: Event, g: Gift)
    requires Sorted(s)
    ensures Sorted(Apply(s, ev)) && (s.called ==> Apply(s, ev).called)
    ensures ev.Status? ==> Apply(s, ev).called
    ensures !s.called && !ev.Status? ==> !Apply(s, ev).called && Apply(s, ev).passed == s.passed
    ensures s.called || !ev.End? ==> (Item.Gift(g) in Apply(s, ev).done <==> Item.Gift(g) in s.done)
  {
    BackwardsHas(s.after);
  }

  lemma {:induction false} NeverCalled(s: State, evs: seq<Event>)
    requires Sorted(s) && !s.called && forall ev :: ev in evs ==> !ev.Status?
    ensures !Run(s, evs).called && Run(s, evs).passed == s.passed && Sorted(Run(s, evs))
    decreases |evs|
  {
    if evs != [] {
      StepHands(s, evs[0], Gift.Tree(0));
      NeverCalled(Apply(s, evs[0]), evs[1..]);
    }
  }

  lemma NotAmong(items: seq<Item>, x: Item)
    requires x !in items
    ensures Count(items, x) == 0
  {
    assert x !in multiset(items);
  }

  lemma EndUndoesNothing(s: State, x: Item)
    requires Sorted(s) && s.called && x.Gift?
    ensures Count(Apply(s, End).done, x) == Count(s.done, x)
  {
    BackwardsHas(s.after);
    var ran := Backwards(s.after);
    NotAmong(s.lent, x);
    NotAmong(s.blocks, x);
    NotAmong(ran, x);
    hide Count, Backwards, Sorted;
    CountBoth(s.done, s.lent, x);
    CountBoth(s.done + s.lent, ran, x);
    CountBoth(s.done + s.lent + ran, s.blocks, x);
  }

  lemma StatusUndoesNothing(s: State, ev: Event, x: Item)
    requires Sorted(s) && ev.Status? && x.Gift?
    ensures Count(Apply(s, ev).done, x) == Count(s.done, x)
  {
    NotAmong(s.lent, x);
    NotAmong([Answer(s.out)], x);
    hide Count, Sorted;
    CountBoth(s.done, s.lent, x);
    CountBoth(s.done + s.lent, [Answer(s.out)], x);
    assert s.done + s.lent + [] == s.done + s.lent;
  }

  lemma CalledUndoesNothing(s: State, ev: Event, x: Item)
    requires Sorted(s) && s.called && x.Gift?
    ensures Count(Apply(s, ev).done, x) == Count(s.done, x)
  {
    hide Count, Sorted;
    if ev.End? {
      EndUndoesNothing(s, x);
    } else if ev.Status? {
      StatusUndoesNothing(s, ev, x);
    } else {
      CountMore(s.done, Block(s.next), x);
    }
  }

  lemma {:induction false} NothingUndone(s: State, evs: seq<Event>, x: Item)
    requires Sorted(s) && s.called && x.Gift?
    ensures Count(Run(s, evs).done, x) == Count(s.done, x)
    decreases |evs|
  {
    if evs != [] {
      StepHands(s, evs[0], x.gift);
      CalledUndoesNothing(s, evs[0], x);
      NothingUndone(Apply(s, evs[0]), evs[1..], x);
    }
  }

  /** A call that never happened, ended any number of times, hands nothing over and undoes
      each hand-over as often as it was made. */
  lemma {:induction false} UndoneUnlessCalled(evs: seq<Event>, x: Item)
    requires forall ev :: ev in evs ==> !ev.Status?
    ensures var s := Run(BEGUN, evs + [End]);
      s.passed == multiset{} && Count(s.done, x) == AllIncurred(BEGUN, evs + [End], x)
  {
    NothingLeft(evs);
    NeverCalled(BEGUN, evs + [End]);
  }

  /** Once the call happened nothing more is undone: what ends before it undid stays undone,
      and every other hand-over, made before or after, is the callee's. */
  lemma {:induction false} HandedOverOnceCalled(before: seq<Event>, status: Event, rest: seq<Event>, g: Gift)
    requires status.Status? && forall ev :: ev in before ==> !ev.Status?
    ensures var x, evs := Item.Gift(g), before + [status] + rest + [End];
      var s, undone := Run(BEGUN, evs), Count(Run(BEGUN, before).done, x);
      && Count(s.done, x) == undone && s.passed[x] == AllIncurred(BEGUN, evs, x) - undone
      && (g.Tree? && undone > 0 ==> s.passed[x] == 0)
  {
    var x, all := Item.Gift(g), before + [status] + rest;
    var evs, tail := all + [End], [status] + rest + [End];
    NothingLeft(all);
    RunAll(BEGUN, before, tail);
    assert before + tail == evs && tail[0] == status && tail[1..] == rest + [End];
    var s := Run(BEGUN, before);
    NeverCalled(BEGUN, before);
    StepHands(s, status, g);
    StatusUndoesNothing(s, status, x);
    NothingUndone(Apply(s, status), tail[1..], x);
    if g.Tree? { NamedOnce(BEGUN, evs, x, g.node); }
  }

  // --- no use after free -----------------------------------------------------------------

  /** No tree is freed after the block it stands in. */
  ghost predicate Ordered(done: seq<Item>) {
    forall i :: 0 <= i < |done| ==> FreedInTime(done[i], done[..i])
  }

  predicate FreedInTime(x: Item, before: seq<Item>) {
    x.Gift? && x.gift.Tree? ==> Block(x.gift.node) !in before
  }

  ghost predicate Unfreed(s: State) {
    && (forall n: Node :: Block(n) in s.done || Block(n) in s.blocks || Item.Gift(Gift.Tree(n)) in s.given ==>
      n < s.next)
    && (forall x :: x in s.given ==> FreedInTime(x, s.done))
  }

  lemma OrderedBoth(a: seq<Item>, b: seq<Item>)
    requires Ordered(a) && Ordered(b) && forall x :: x in b ==> FreedInTime(x, a)
    ensures Ordered(a + b)
  {
    forall i | 0 <= i < |a + b| ensures FreedInTime((a + b)[i], (a + b)[..i]) {
      if i < |a| {
        assert (a + b)[..i] == a[..i];
      } else {
        assert (a + b)[..i] == a + b[..i - |a|] && (a + b)[i] == b[i - |a|] && b[i - |a|] in b;
      }
    }
  }

  lemma OrderedAlone(items: seq<Item>)
    requires (forall x :: x in items ==> !x.Block?) || (forall x :: x in items ==> !x.Gift?)
    ensures Ordered(items)
  {
    forall i | 0 <= i < |items| ensures FreedInTime(items[i], items[..i]) {
      assert items[i] in items;
      forall x | x in items[..i] ensures x in items {}
    }
  }

  lemma {:induction false} EndOrders(s: State)
    requires Sorted(s) && Ordered(s.done) && Unfreed(s)
    ensures Ordered(Apply(s, End).done) && Unfreed(Apply(s, End))
  {
    hide Backwards;
    BackwardsHas(s.after);
    BackwardsHas(s.given);
    OrderedAlone(s.lent);
    OrderedAlone(Backwards(s.after));
    OrderedAlone(Backwards(s.given));
    OrderedAlone(s.blocks);
    var settled := s.done + s.lent;
    OrderedBoth(s.done, s.lent);
    OrderedBoth(settled, Backwards(s.after));
    var ran := settled + Backwards(s.after);
    OrderedBoth(ran, s.blocks);
    OrderedBoth(ran, Backwards(s.given));
    OrderedBoth(ran + Backwards(s.given), s.blocks);
  }

  lemma {:induction false} StatusOrders(s: State, ev: Event)
    requires ev.Status? && Sorted(s) && Ordered(s.done) && Unfreed(s)
    ensures Ordered(Apply(s, ev).done) && Unfreed(Apply(s, ev))
  {
    OrderedAlone(s.lent);
    OrderedBoth(s.done, s.lent);
    OrderedAlone([Answer(s.out)]);
    OrderedBoth(s.done + s.lent, [Answer(s.out)]);
  }

  lemma {:induction false} StepOrders(s: State, ev: Event)
    requires Sorted(s) && Ordered(s.done) && Unfreed(s)
    ensures Ordered(Apply(s, ev).done) && Unfreed(Apply(s, ev))
  {
    if ev.End? {
      EndOrders(s);
    } else if ev.Status? {
      StatusOrders(s, ev);
    } else if ev == Take(Unwritten) {
      OrderedAlone([Block(s.next)]);
      OrderedBoth(s.done, [Block(s.next)]);
    }
  }

  /** Over every run a tree is never freed after the node it stands in. */
  lemma {:induction false} NeverAfterFree(s: State, evs: seq<Event>)
    requires Sorted(s) && Ordered(s.done) && Unfreed(s)
    ensures Ordered(Run(s, evs).done)
    decreases |evs|
  {
    if evs != [] {
      StepOrders(s, evs[0]);
      StepHands(s, evs[0], Gift.Tree(0));
      NeverAfterFree(Apply(s, evs[0]), evs[1..]);
    }
  }

  /** The slot an answer goes to is allocated, until an end. */
  ghost predicate OutStands(s: State) {
    && (s.outShape != Nothing ==> s.out < s.next && Block(s.out) !in s.done)
    && (forall n: Node :: Block(n) in s.done ==> n < s.next)
  }

  lemma {:induction false} StepKeepsSlot(s: State, ev: Event)
    requires Sorted(s) && OutStands(s) && !ev.End?
    ensures OutStands(Apply(s, ev))
  {
    var t := Apply(s, ev);
    if ev.Status? {
      forall n: Node | Block(n) in t.done ensures Block(n) in s.done {
        assert Block(n) !in s.lent;
      }
    } else {
      assert t.done == s.done || t.done == s.done + [Block(s.next)];
    }
  }

  lemma {:induction false} OutStaysUntilEnd(s: State, evs: seq<Event>)
    requires Sorted(s) && OutStands(s) && forall ev :: ev in evs ==> !ev.End?
    ensures OutStands(Run(s, evs)) && Sorted(Run(s, evs))
    decreases |evs|
  {
    if evs != [] {
      hide Sorted, OutStands, Apply;
      StepHands(s, evs[0], Gift.Tree(0));
      StepKeepsSlot(s, evs[0]);
      OutStaysUntilEnd(Apply(s, evs[0]), evs[1..]);
    }
  }

  /** An answer a call drops before any end is freed while its slot is still allocated... */
  lemma {:induction false} AnswerFreedInItsSlot(before: seq<Event>, settles: bool)
    requires forall ev :: ev in before ==> !ev.End?
    ensures var s, t := Run(BEGUN, before), Run(BEGUN, before + [Status(true, settles)]);
      t.done == s.done + s.lent || t.done == s.done + s.lent + [Answer(s.out)]
    ensures var s, t := Run(BEGUN, before), Run(BEGUN, before + [Status(true, settles)]);
      t.done == s.done + s.lent + [Answer(s.out)] ==> Block(s.out) !in t.done
  {
    OutStaysUntilEnd(BEGUN, before);
    RunAll(BEGUN, before, [Status(true, settles)]);
    assert [Status(true, settles)][1..] == [];
  }

  /** ... which an end before it, that the glue never makes, would have freed. */
  lemma EndedThenAnswered()
    ensures var s := Run(BEGUN, [Out(OutText), End, Lend(Some(LentTree(0, 0, false)), 0), Status(true, false)]);
      s.done == [Block(0), Lent(LentTree(0, 0, false)), Answer(0)]
  {
    var lend, status := Lend(Some(LentTree(0, 0, false)), 0), Status(true, false);
    assert [Out(OutText), End, lend, status][1..] == [End, lend, status];
    assert [End, lend, status][1..] == [lend, status];
    assert [lend, status][1..] == [status];
    assert [status][1..] == [];
    assert Backwards([]) == [];
  }
}
