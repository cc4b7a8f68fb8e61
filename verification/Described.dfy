/** A call into an engine: the caller's arguments converted, lent objects shared, and what
    the engine changed written back over the caller's own values. */
module Described {
  import opened Texts
  import opened Wire

  type Obj = nat

  /** A value the caller lends. */
  class Cell {
    var value: Tree

    constructor (value: Tree)
      ensures this.value == value
    {
      this.value := value;
    }
  }

  /** The caller's arguments; NotFinite is a float no value holds, Unknown one added since. */
  datatype Arg =
    | Value(tree: Tree)
    | NotFinite
    | Buffer(bytes: array<Byte>)
    | LentValue(cell: Cell)
    | LentMap(cell: Cell)
    | LentList(cell: Cell)
    | Object(obj: Obj)
    | LentObject(obj: Obj)
    | Unknown

  datatype CallArg =
    | Value(tree: Tree)
    | Lent(tree: Tree)
    | Buffer(bytes: Text)
    | Object(obj: Obj)
    | LentObject(handle: Obj)

  datatype Back =
    | Nothing
    | Value(cell: Cell)
    | Map(cell: Cell)
    | List(cell: Cell)
    | Buffer(bytes: array<Byte>)

  datatype Loan = Loan(at: nat, obj: Obj)

  predicate Carried(arg: Arg) {
    !arg.NotFinite? && !arg.Unknown?
  }

  /** The argument as the engine is to have it. */
  ghost function ForEngine(arg: Arg): CallArg
    requires Carried(arg)
    reads if arg.Buffer? then {arg.bytes} else {}
    reads if arg.LentValue? || arg.LentMap? || arg.LentList? then {arg.cell} else {}
  {
    match arg
    case Value(tree) => CallArg.Value(tree)
    case Buffer(bytes) => CallArg.Buffer(bytes[..])
    case LentValue(cell) => CallArg.Lent(cell.value)
    case LentMap(cell) => CallArg.Lent(cell.value)
    case LentList(cell) => CallArg.Lent(cell.value)
    case Object(obj) => CallArg.Object(obj)
    case LentObject(obj) => CallArg.LentObject(obj)
    case _ => CallArg.Value(Null)
  }

  function BackOf(arg: Arg): Back {
    match arg
    case LentValue(cell) => Back.Value(cell)
    case LentMap(cell) => Back.Map(cell)
    case LentList(cell) => Back.List(cell)
    case Buffer(bytes) => Back.Buffer(bytes)
    case _ => Nothing
  }

  /** The objects lent among the arguments, each at its place, first to last. */
  function Loans(args: seq<Arg>): seq<Loan> {
    if args == [] then []
    else
      var last := |args| - 1;
      Loans(args[..last]) + if args[last].LentObject? then [Loan(last, args[last].obj)] else []
  }

  /** Each kind of argument reaches the engine as what it is: lent trees as lent, by value. */
  lemma EachAsItIs(arg: Arg)
    ensures arg.Value? ==> ForEngine(arg) == CallArg.Value(arg.tree)
    ensures arg.Buffer? ==> ForEngine(arg) == CallArg.Buffer(arg.bytes[..])
    ensures arg.LentValue? || arg.LentMap? || arg.LentList? ==> ForEngine(arg) == CallArg.Lent(arg.cell.value)
    ensures arg.Object? ==> ForEngine(arg) == CallArg.Object(arg.obj)
    ensures arg.LentObject? ==> ForEngine(arg) == CallArg.LentObject(arg.obj)
  {
  }

  const PLACEHOLDER: CallArg := CallArg.Value(Null)

  method ConvertOne(arg: Arg) returns (one: CallArg)
    requires Carried(arg)
    ensures one == if arg.LentObject? then PLACEHOLDER else ForEngine(arg)
  {
    match arg
    case Value(tree) => one := CallArg.Value(tree);
    case Buffer(bytes) => one := CallArg.Buffer(bytes[..]);
    case LentValue(cell) => one := CallArg.Lent(cell.value);
    case LentMap(cell) => one := CallArg.Lent(cell.value);
    case LentList(cell) => one := CallArg.Lent(cell.value);
    case Object(obj) => one := CallArg.Object(obj);
    case LentObject(_) => one := PLACEHOLDER;
  }

  /** The arguments converted, where each is written back, and the objects lent; refused
      when one of them cannot cross. */
  method Convert(args: seq<Arg>) returns (ok: bool, out: seq<CallArg>, backs: seq<Back>, lent: seq<Loan>)
    ensures ok == forall i :: 0 <= i < |args| ==> !args[i].NotFinite? && !args[i].Unknown?
    ensures ok ==> |out| == |backs| == |args| && lent == Loans(args)
    ensures ok ==> forall i :: 0 <= i < |args| ==>
      backs[i] == BackOf(args[i]) && out[i] == if args[i].LentObject? then PLACEHOLDER else ForEngine(args[i])
  {
    out, backs, lent := [], [], [];
    for i := 0 to |args|
      invariant |out| == |backs| == i && lent == Loans(args[..i])
      invariant forall k :: 0 <= k < i ==> Carried(args[k]) && backs[k] == BackOf(args[k])
      invariant forall k :: 0 <= k < i ==> out[k] == if args[k].LentObject? then PLACEHOLDER else ForEngine(args[k])
    {
      if args[i].NotFinite? || args[i].Unknown? { return false, [], [], []; }
      var one := ConvertOne(args[i]);
      assert args[..i + 1][..i] == args[..i];
      if args[i].LentObject? { lent := lent + [Loan(i, args[i].obj)]; }
      out, backs := out + [one], backs + [BackOf(args[i])];
    }
    assert args[..|args|] == args;
    ok := true;
  }

  function Reversed<T>(s: seq<T>): (r: seq<T>)
    ensures |r| == |s| && forall k :: 0 <= k < |s| ==> r[k] == s[|s| - 1 - k]
  {
    if s == [] then [] else [s[|s| - 1]] + Reversed(s[..|s| - 1])
  }

  /** Shares the lent objects, the last first, and answers a handle on each with its place. */
  method Sharing(lent: seq<Loan>, handles: seq<Loan>) returns (shared: seq<Loan>)
    ensures shared == handles + Reversed(lent)
    decreases |lent|
  {
    if lent == [] {
      shared := handles;
    } else {
      var last := lent[|lent| - 1];
      shared := Sharing(lent[..|lent| - 1], handles + [last]);
      Regroup(handles, [last], Reversed(lent[..|lent| - 1]));
    }
  }

  /** Whether a loan is of the object lent at its place. */
  predicate IsLoanOf(args: seq<Arg>, l: Loan) {
    l.at < |args| && args[l.at] == Arg.LentObject(l.obj)
  }

  /** The loans are of exactly the objects lent. */
  lemma {:induction false} LoansAre(args: seq<Arg>)
    ensures forall l :: l in Loans(args) <==> IsLoanOf(args, l)
  {
    if args != [] {
      var front := args[..|args| - 1];
      LoansAre(front);
      forall l ensures l in Loans(args) <==> IsLoanOf(args, l) {
        assert l.at < |front| ==> front[l.at] == args[l.at];
      }
    }
  }

  lemma ReversedHas<T>(s: seq<T>)
    ensures forall x :: x in Reversed(s) <==> x in s
  {
    forall x | x in s ensures x in Reversed(s) {
      var k :| 0 <= k < |s| && s[k] == x;
      assert Reversed(s)[|s| - 1 - k] == x;
    }
  }

  function Placed(args: seq<Arg>, handles: seq<Loan>, out: seq<CallArg>, i: nat): CallArg
    requires i < |args| == |out|
  {
    if args[i].LentObject? && Loan(i, args[i].obj) in handles then CallArg.LentObject(args[i].obj) else out[i]
  }

  /** Puts each handle at its place. */
  method Place(ghost args: seq<Arg>, out: seq<CallArg>, handles: seq<Loan>) returns (placed: seq<CallArg>)
    requires |out| == |args| && forall l :: l in handles ==> IsLoanOf(args, l)
    ensures |placed| == |args|
    ensures forall i :: 0 <= i < |args| ==> placed[i] == Placed(args, handles, out, i)
  {
    placed := out;
    for k := 0 to |handles|
      invariant |placed| == |args|
      invariant forall i :: 0 <= i < |args| ==> placed[i] == Placed(args, handles[..k], out, i)
    {
      assert handles[k] in handles;
      assert handles[..k + 1] == handles[..k] + [handles[k]];
      placed := placed[handles[k].at := CallArg.LentObject(handles[k].obj)];
    }
    assert handles[..|handles|] == handles;
  }

  function Backs(args: seq<Arg>): seq<Back> {
    seq(|args|, i requires 0 <= i < |args| => BackOf(args[i]))
  }

  /** Everything an engine is handed for a call: every argument at its own place, a lent
      object's handle where the object is, and no placeholder left. */
  method Arguments(args: seq<Arg>) returns (ok: bool, out: seq<CallArg>, backs: seq<Back>)
    ensures ok == forall i :: 0 <= i < |args| ==> !args[i].NotFinite? && !args[i].Unknown?
    ensures ok ==> |out| == |args| && backs == Backs(args)
    ensures ok ==> forall i :: 0 <= i < |args| ==> out[i] == ForEngine(args[i])
  {
    var converted, lent;
    ok, converted, backs, lent := Convert(args);
    if !ok { return false, [], []; }
    var handles := Sharing(lent, []);
    assert handles == Reversed(lent);
    LoansAre(args);
    ReversedHas(lent);
    out := Place(args, converted, handles);
    forall i | 0 <= i < |args| ensures out[i] == ForEngine(args[i]) {
      assert args[i].LentObject? ==> IsLoanOf(args, Loan(i, args[i].obj));
    }
  }

  // --- writing back ----------------------------------------------------------------------

  /** The engine left something no caller's map or list can be, or the copy into the
      caller's own allocator was refused. */
  predicate Refuses(arg: CallArg, back: Back, full: bool) {
    arg.Lent? && match back
      case Value(_) => full
      case Map(_) => !arg.tree.Map? || full
      case List(_) => !arg.tree.List? || full
      case _ => false
  }

  /** What comes of an argument is refused when the caller's own allocator refuses it, or a lent
      map or list is a tree of another kind by then; a lent value may be any. */
  lemma RefusedExactly(arg: Arg, left: CallArg, full: bool)
    ensures Refuses(left, BackOf(arg), full)
      <==>
      && left.Lent?
      && (|| (arg.LentValue? && full)
          || (arg.LentMap? && (!left.tree.Map? || full))
          || (arg.LentList? && (!left.tree.List? || full)))
  {
  }

  predicate HasCell(back: Back) {
    back.Value? || back.Map? || back.List?
  }

  /** Of a buffer only what both sides have is written. */
  function Poured(source: Text, was: Text): (r: Text)
    ensures |r| == |was| && forall k :: 0 <= k < |r| ==> r[k] == if k < |source| then source[k] else was[k]
  {
    if |source| <= |was| then source + was[|source|..] else source[..|was|]
  }

  /** What is at a place written back to. */
  datatype Content = Empty | Held(tree: Tree) | Bytes(bytes: Text)

  /** What one argument leaves there. */
  function Written(arg: CallArg, was: Content): Content {
    if was.Held? && arg.Lent? then Held(arg.tree)
    else if was.Bytes? && arg.Buffer? then Content.Bytes(Poured(arg.bytes, was.bytes))
    else was
  }

  ghost function Cells(backs: seq<Back>): set<object> {
    (set i | 0 <= i < |backs| && HasCell(backs[i]) :: backs[i].cell as object)
    + (set i | 0 <= i < |backs| && backs[i].Buffer? :: backs[i].bytes as object)
  }

  /** No two arguments are written back to the same place. */
  ghost predicate Apart(backs: seq<Back>) {
    && (forall i, j :: 0 <= i < j < |backs| && HasCell(backs[i]) && HasCell(backs[j]) ==>
      backs[i].cell != backs[j].cell)
    && (forall i, j :: 0 <= i < j < |backs| && backs[i].Buffer? && backs[j].Buffer? ==>
      backs[i].bytes != backs[j].bytes)
  }

  ghost function Contents(backs: seq<Back>): (r: seq<Content>)
    reads Cells(backs)
    ensures |r| == |backs| && forall i :: 0 <= i < |backs| ==>
      && (HasCell(backs[i]) ==> r[i] == Held(backs[i].cell.value))
      && (backs[i].Buffer? ==> r[i] == Content.Bytes(backs[i].bytes[..]))
  {
    seq(|backs|, i requires 0 <= i < |backs| reads Cells(backs) =>
      if HasCell(backs[i]) then (assert backs[i].cell in Cells(backs); Held(backs[i].cell.value))
      else if backs[i].Buffer? then (assert backs[i].bytes in Cells(backs); Content.Bytes(backs[i].bytes[..]))
      else Empty)
  }

  /** What is everywhere once the first at arguments are written back. */
  ghost function WroteBack(args: seq<CallArg>, were: seq<Content>, at: nat): seq<Content>
    requires at <= |args| <= |were|
  {
    seq(|were|, i requires 0 <= i < |were| => if i < at then Written(args[i], were[i]) else were[i])
  }

  /** Before at, each lent place holds the tree the engine left and each buffer its bytes as far
      as both go; everything else is as it was. */
  lemma WroteBackIs(args: seq<CallArg>, were: seq<Content>, at: nat, i: nat)
    requires at <= |args| <= |were| && i < |were|
    ensures var now := WroteBack(args, were, at)[i];
      if i < at && args[i].Lent? && were[i].Held? then now == Held(args[i].tree)
      else if i < at && args[i].Buffer? && were[i].Bytes? then
        && now.Bytes? && |now.bytes| == |were[i].bytes|
        && (forall k :: 0 <= k < |now.bytes| && k < |args[i].bytes| ==> now.bytes[k] == args[i].bytes[k])
        && forall k :: |args[i].bytes| <= k < |now.bytes| ==> now.bytes[k] == were[i].bytes[k]
      else now == were[i]
  {
  }

  method Pour(source: Text, bytes: array<Byte>)
    modifies bytes
    ensures bytes[..] == Poured(source, old(bytes[..]))
  {
    var n := if bytes.Length < |source| then bytes.Length else |source|;
    for i := 0 to n
      invariant forall k :: 0 <= k < i ==> bytes[k] == source[k]
      invariant forall k :: i <= k < bytes.Length ==> bytes[k] == old(bytes[k])
    {
      bytes[i] := source[i];
    }
  }

  /** Writes one lent argument over the caller's. */
  method WriteOne(arg: CallArg, backs: seq<Back>, at: nat)
    requires at < |backs| && Apart(backs)
    modifies Cells(backs)
    ensures Contents(backs) == old(Contents(backs))[at := Written(arg, old(Contents(backs))[at])]
  {
    var back := backs[at];
    if HasCell(back) && arg.Lent? {
      back.cell.value := arg.tree;
    } else if back.Buffer? && arg.Buffer? {
      Pour(arg.bytes, back.bytes);
    }
    assert forall i :: 0 <= i < |backs| && i != at ==> Contents(backs)[i] == old(Contents(backs))[i];
  }

  /** What the engine changed replaces the caller's, argument by argument; at is the first
      argument where that was refused, and nothing from there on is written. */
  method WriteBack(args: seq<CallArg>, backs: seq<Back>, full: nat -> bool) returns (at: nat)
    requires |args| <= |backs| && Apart(backs)
    modifies Cells(backs)
    ensures at <= |args| && (at < |args| ==> Refuses(args[at], backs[at], full(at)))
    ensures forall i :: 0 <= i < at ==> !Refuses(args[i], backs[i], full(i))
    ensures Contents(backs) == WroteBack(args, old(Contents(backs)), at)
  {
    at := 0;
    assert WroteBack(args, Contents(backs), 0) == Contents(backs);
    while at < |args| && !Refuses(args[at], backs[at], full(at))
      invariant at <= |args|
      invariant forall i :: 0 <= i < at ==> !Refuses(args[i], backs[i], full(i))
      invariant Contents(backs) == WroteBack(args, old(Contents(backs)), at)
    {
      WriteOne(args[at], backs, at);
      at := at + 1;
    }
  }

  /** Whether the whole of what the engine left can be written back. */
  ghost predicate AllWritable(left: seq<CallArg>, args: seq<Arg>, full: nat -> bool) {
    forall i :: 0 <= i < |left| && i < |args| ==> !Refuses(left[i], BackOf(args[i]), full(i))
  }

  predicate AllCarried(args: seq<Arg>) {
    forall i :: 0 <= i < |args| ==> Carried(args[i])
  }

  /** What the engine is handed. */
  ghost function Asked(args: seq<Arg>): (r: seq<CallArg>)
    requires AllCarried(args)
    reads Cells(Backs(args))
  {
    seq(|args|, i requires 0 <= i < |args| reads Cells(Backs(args)) =>
      assert BackOf(args[i]) == Backs(args)[i]; ForEngine(args[i]))
  }

  /** A slot called: engine is what it leaves its arguments as, None when it fails. A call
      refused or failed changes nothing of the caller's; one that ran changes what it lent
      and nothing else, up to the first the engine left as no caller's value can be. */
  method Call(known: bool, args: seq<Arg>, engine: seq<CallArg> -> Option<seq<CallArg>>, full: nat -> bool)
    returns (ok: bool, ghost at: nat)
    requires Apart(Backs(args))
    modifies Cells(Backs(args))
    ensures ok == (known && AllCarried(args)
      && old(engine(Asked(args))).Some? && AllWritable(old(engine(Asked(args))).value, args, full))
    ensures if known && AllCarried(args) && old(engine(Asked(args))).Some?
      then
        var left := old(engine(Asked(args))).value;
        var n := if |left| < |args| then |left| else |args|;
        && at <= n && Contents(Backs(args)) == WroteBack(left[..n], old(Contents(Backs(args))), at)
        && (at < n ==> Refuses(left[at], BackOf(args[at]), full(at)))
        && (ok ==> at == n)
      else Contents(Backs(args)) == old(Contents(Backs(args)))
  {
    hide WroteBack, Apart, Contents;
    at := 0;
    if !known { return false, 0; }
    var asked, backs;
    ok, asked, backs := Arguments(args);
    if !ok { return; }
    assert asked == Asked(args);
    var left := engine(asked);
    if left.None? { return false, 0; }
    var n := if |left.value| < |args| then |left.value| else |args|;
    var reached := WriteBack(left.value[..n], backs, full);
    at := reached;
    ok := reached == n;
  }
}
