/** Encoding data that refers to itself or is shared: a heap of []any lists,
    map[string]any maps and *any pointers. */
module Cycles {
  import opened Texts
  import W = Wire

  /** A base address: distinct lists, maps and pointers have distinct ones. */
  type Ref = nat

  /** An interface's value: nil, a leaf the encoder takes, or what a container or a
      pointer refers to. */
  datatype Val = VNil | VLeaf(tree: W.Tree) | VRef(ref: Ref)

  datatype Node = ListNode(vals: seq<Val>) | MapNode(keys: seq<Text>, vals: seq<Val>) | PtrNode(to: Val)

  type Heap = map<Ref, Node>

  /** What a value is once every reference in it is followed. */
  datatype Unfolded =
    | UNil
    | ULeaf(tree: W.Tree)
    | UNode(keys: Option<seq<Text>>, items: seq<Unfolded>)
    | UPtr(to: Unfolded)

  ghost predicate Refers(heap: Heap, x: Val) {
    x.VRef? ==> x.ref in heap
  }

  /** The values a node holds. */
  function Held(node: Node): seq<Val> {
    if node.PtrNode? then [node.to] else node.vals
  }

  ghost predicate WellFormed(heap: Heap) {
    forall r :: r in heap ==>
      && (forall i :: 0 <= i < |Held(heap[r])| ==> Refers(heap, Held(heap[r])[i]))
      && (heap[r].MapNode? ==> |heap[r].keys| == |heap[r].vals|)
  }

  /** x with every reference followed, at most n deep; None when that is not the end. */
  ghost function Unfold(heap: Heap, x: Val, n: nat): Option<Unfolded>
    requires WellFormed(heap) && Refers(heap, x)
    decreases n, 0
  {
    match x
    case VNil => Some(UNil)
    case VLeaf(t) => Some(ULeaf(t))
    case VRef(r) =>
      if n == 0 then None
      else match UnfoldAll(heap, Held(heap[r]), n - 1)
        case None => None
        case Some(us) => Some(Wrap(heap[r], us))
  }

  ghost function UnfoldAll(heap: Heap, xs: seq<Val>, n: nat): (r: Option<seq<Unfolded>>)
    requires WellFormed(heap) && forall i :: 0 <= i < |xs| ==> Refers(heap, xs[i])
    ensures r.Some? ==> |r.value| == |xs|
    decreases n, 1, |xs|
  {
    if xs == [] then Some([])
    else match Unfold(heap, xs[0], n)
      case None => None
      case Some(u) =>
        match UnfoldAll(heap, xs[1..], n)
        case None => None
        case Some(us) => Some([u] + us)
  }

  function Wrap(node: Node, us: seq<Unfolded>): Unfolded {
    match node
    case ListNode(_) => UNode(None, us)
    case MapNode(ks, _) => UNode(Some(ks), us)
    case PtrNode(_) => UPtr(if us == [] then UNil else us[0])
  }

  /** Every node of u but a nil lies below fewer than MAX_DEPTH others, pointers not
      counted. */
  ghost predicate Within(u: Unfolded, depth: nat) {
    match u
    case UNil => true
    case ULeaf(_) => depth < W.MAX_DEPTH
    case UNode(_, items) => depth < W.MAX_DEPTH && forall i :: 0 <= i < |items| ==> Within(items[i], depth + 1)
    case UPtr(to) => depth < W.MAX_DEPTH && Within(to, depth)
  }

  /** x is a finite tree, and nests within the limit from depth on. */
  ghost predicate Encodes(heap: Heap, x: Val, depth: nat)
    requires WellFormed(heap) && Refers(heap, x)
  {
    exists n: nat :: EncodesAt(heap, x, depth, n)
  }

  ghost predicate EncodesAt(heap: Heap, x: Val, depth: nat, n: nat)
    requires WellFormed(heap) && Refers(heap, x)
  {
    Unfold(heap, x, n).Some? && Within(Unfold(heap, x, n).value, depth)
  }

  // --- unfolding ---------------------------------------------------------------------

  lemma {:induction false} UnfoldsFurther(heap: Heap, x: Val, n: nat, m: nat)
    requires WellFormed(heap) && Refers(heap, x) && n <= m && Unfold(heap, x, n).Some?
    ensures Unfold(heap, x, m) == Unfold(heap, x, n)
    decreases n, 0
  {
    if x.VRef? {
      AllUnfoldFurther(heap, Held(heap[x.ref]), n - 1, m - 1);
    }
  }

  lemma {:induction false} AllUnfoldFurther(heap: Heap, xs: seq<Val>, n: nat, m: nat)
    requires WellFormed(heap) && forall i :: 0 <= i < |xs| ==> Refers(heap, xs[i])
    requires n <= m && UnfoldAll(heap, xs, n).Some?
    ensures UnfoldAll(heap, xs, m) == UnfoldAll(heap, xs, n)
    decreases n, 1, |xs|
  {
    if xs != [] {
      UnfoldsFurther(heap, xs[0], n, m);
      AllUnfoldFurther(heap, xs[1..], n, m);
    }
  }

  lemma {:induction false} AllUnfoldEach(heap: Heap, xs: seq<Val>, n: nat, i: nat)
    requires WellFormed(heap) && forall j :: 0 <= j < |xs| ==> Refers(heap, xs[j])
    requires i < |xs| && UnfoldAll(heap, xs, n).Some?
    ensures Unfold(heap, xs[i], n) == Some(UnfoldAll(heap, xs, n).value[i])
    decreases |xs|
  {
    if i > 0 { AllUnfoldEach(heap, xs[1..], n, i - 1); }
  }

  // --- references that lead to one another ---------------------------------------------

  /** Each reference of the path is held by the node before it. */
  ghost predicate IsPath(heap: Heap, path: seq<Ref>) {
    && path != [] && (forall i :: 0 <= i < |path| ==> path[i] in heap)
    && (forall i :: 0 < i < |path| ==> VRef(path[i]) in Held(heap[path[i - 1]]))
  }

  ghost predicate LeadsBy(heap: Heap, path: seq<Ref>, x: Val) {
    IsPath(heap, path) && x in Held(heap[path[|path| - 1]])
  }

  /** Following references from p comes to x, one at least. */
  ghost predicate Leads(heap: Heap, p: Ref, x: Val) {
    exists path :: LeadsBy(heap, path, x) && path[0] == p
  }

  ghost predicate Cyclic(heap: Heap, r: Ref) {
    Leads(heap, r, VRef(r))
  }

  /** Nothing x comes to comes back to itself. */
  ghost predicate Acyclic(heap: Heap, x: Val) {
    x.VRef? ==> !Cyclic(heap, x.ref) && forall r :: Leads(heap, x.ref, VRef(r)) ==> !Cyclic(heap, r)
  }

  /** Each step along a path leaves one less to follow. */
  lemma {:induction false} PathUnfolds(heap: Heap, path: seq<Ref>, x: Val, n: nat)
    requires WellFormed(heap) && LeadsBy(heap, path, x) && Unfold(heap, VRef(path[0]), n).Some?
    ensures Refers(heap, x) && n >= |path| && Unfold(heap, x, n - |path|).Some?
    decreases |path|
  {
    var xs := Held(heap[path[0]]);
    var next := if |path| == 1 then x else VRef(path[1]);
    var i :| 0 <= i < |xs| && xs[i] == next;
    AllUnfoldEach(heap, xs, n - 1, i);
    if |path| > 1 {
      PathUnfolds(heap, path[1..], x, n - 1);
    }
  }

  /** What comes back to itself never ends. */
  lemma {:induction false} CyclesNeverEnd(heap: Heap, r: Ref, n: nat)
    requires WellFormed(heap) && r in heap && Cyclic(heap, r)
    ensures Unfold(heap, VRef(r), n).None?
  {
    if Unfold(heap, VRef(r), n).Some? {
      var path :| LeadsBy(heap, path, VRef(r)) && path[0] == r;
      PathUnfolds(heap, path, VRef(r), n);
      CyclesNeverEnd(heap, r, n - |path|);
    }
  }

  /** What does not end after n steps has a path of more than n references. */
  lemma {:induction false} LongPath(heap: Heap, x: Val, n: nat) returns (path: seq<Ref>)
    requires WellFormed(heap) && Refers(heap, x) && Unfold(heap, x, n).None?
    ensures IsPath(heap, path) && |path| == n + 1 && x == VRef(path[0])
    decreases n, 0
  {
    if n == 0 { return [x.ref]; }
    var i, rest := LongPathAmong(heap, Held(heap[x.ref]), n - 1);
    path := [x.ref] + rest;
  }

  lemma {:induction false} LongPathAmong(heap: Heap, xs: seq<Val>, n: nat) returns (i: nat, path: seq<Ref>)
    requires WellFormed(heap) && (forall j :: 0 <= j < |xs| ==> Refers(heap, xs[j])) && UnfoldAll(heap, xs, n).None?
    ensures i < |xs| && IsPath(heap, path) && |path| == n + 1 && xs[i] == VRef(path[0])
    decreases n, 1, |xs|
  {
    if Unfold(heap, xs[0], n).None? {
      i := 0;
      path := LongPath(heap, xs[0], n);
    } else {
      i, path := LongPathAmong(heap, xs[1..], n);
      i := i + 1;
    }
  }

  /** A path longer than its references are many passes one of them twice. */
  lemma {:induction false} Pigeonhole(path: seq<Ref>, among: set<Ref>) returns (i: nat, j: nat)
    requires |among| < |path| && forall k :: 0 <= k < |path| ==> path[k] in among
    ensures i < j < |path| && path[i] == path[j]
    decreases |path|
  {
    var last := |path| - 1;
    if k :| 0 <= k < last && path[k] == path[last] { return k, last; }
    i, j := Pigeonhole(path[..last], among - {path[last]});
  }

  lemma SubPath(heap: Heap, path: seq<Ref>, i: nat, j: nat)
    requires IsPath(heap, path) && i < j < |path|
    ensures Leads(heap, path[i], VRef(path[j]))
  {
    assert LeadsBy(heap, path[i..j], VRef(path[j]));
  }

  /** A value ends, by as many steps as the heap has nodes, if and only if nothing it comes to
      comes back to itself; however much of it is shared. */
  lemma {:induction false} EndsUnlessCyclic(heap: Heap, x: Val)
    requires WellFormed(heap) && Refers(heap, x)
    ensures Acyclic(heap, x) <==> Unfold(heap, x, |heap|).Some?
    ensures Acyclic(heap, x) <==> exists n: nat :: Unfold(heap, x, n).Some?
  {
    if Unfold(heap, x, |heap|).None? {
      var path := LongPath(heap, x, |heap|);
      var i, j := Pigeonhole(path, heap.Keys);
      SubPath(heap, path, i, j);
      if i > 0 { SubPath(heap, path, 0, i); }
      assert !Acyclic(heap, x);
    }
    if n: nat :| Unfold(heap, x, n).Some? {
      EndsAreAcyclic(heap, x, n);
    }
  }

  lemma {:induction false} EndsAreAcyclic(heap: Heap, x: Val, n: nat)
    requires WellFormed(heap) && Refers(heap, x) && Unfold(heap, x, n).Some?
    ensures Acyclic(heap, x)
  {
    if x.VRef? {
      if Cyclic(heap, x.ref) { CyclesNeverEnd(heap, x.ref, n); }
      forall r | Leads(heap, x.ref, VRef(r)) ensures !Cyclic(heap, r) {
        var path :| LeadsBy(heap, path, VRef(r)) && path[0] == x.ref;
        PathUnfolds(heap, path, VRef(r), n);
        if Cyclic(heap, r) { CyclesNeverEnd(heap, r, n - |path|); }
      }
    }
  }

  /** A value encodes if and only if nothing it comes to comes back to itself and the tree it
      then is nests within the limit. */
  lemma EncodesExactly(heap: Heap, x: Val, depth: nat)
    requires WellFormed(heap) && Refers(heap, x)
    ensures Encodes(heap, x, depth)
      <==> Acyclic(heap, x) && Unfold(heap, x, |heap|).Some? && Within(Unfold(heap, x, |heap|).value, depth)
  {
    hide Unfold, Acyclic, Within;
    EndsUnlessCyclic(heap, x);
    if Encodes(heap, x, depth) {
      var n: nat :| EncodesAt(heap, x, depth, n);
      EndsAreAcyclic(heap, x, n);
      if n < |heap| { UnfoldsFurther(heap, x, n, |heap|); } else { UnfoldsFurther(heap, x, |heap|, n); }
    }
    if Acyclic(heap, x) && Within(Unfold(heap, x, |heap|).value, depth) {
      assert EncodesAt(heap, x, depth, |heap|);
    }
  }

  // --- the way here -----------------------------------------------------------------

  ghost predicate OnTheWay(heap: Heap, seen: set<Ref>, x: Val) {
    forall p :: p in seen ==> Leads(heap, p, x)
  }

  lemma ChildIsBelow(heap: Heap, seen: set<Ref>, r: Ref, i: nat)
    requires r in heap && i < |Held(heap[r])| && OnTheWay(heap, seen, VRef(r))
    ensures OnTheWay(heap, seen + {r}, Held(heap[r])[i])
  {
    var child := Held(heap[r])[i];
    assert LeadsBy(heap, [r], child);
    forall p | p in seen ensures Leads(heap, p, child) {
      var path :| LeadsBy(heap, path, VRef(r)) && path[0] == p;
      assert LeadsBy(heap, path + [r], child);
    }
  }

  /** What is marked already is being written around x, so x refers back to itself. */
  lemma ComesBack(heap: Heap, seen: set<Ref>, r: Ref, depth: nat)
    requires WellFormed(heap) && r in heap && r in seen && OnTheWay(heap, seen, VRef(r))
    ensures !Encodes(heap, VRef(r), depth)
  {
    EncodesExactly(heap, VRef(r), depth);
  }

  /** Nothing but a nil encodes past the limit; a nil and a leaf are what they unfold to. */
  lemma LeafEncodes(heap: Heap, x: Val, depth: nat)
    requires WellFormed(heap) && Refers(heap, x)
    ensures x.VNil? ==> Encodes(heap, x, depth) && UnfoldsTo(heap, x, UNil)
    ensures x.VLeaf? ==> (Encodes(heap, x, depth) <==> depth < W.MAX_DEPTH) && UnfoldsTo(heap, x, ULeaf(x.tree))
    ensures x.VRef? && depth >= W.MAX_DEPTH ==> !Encodes(heap, x, depth)
  {
    if !x.VRef? {
      assert Unfold(heap, x, 0) == Some(if x.VNil? then UNil else ULeaf(x.tree));
      assert EncodesAt(heap, x, depth, 0) <==> x.VNil? || depth < W.MAX_DEPTH;
    }
  }

  ghost predicate UnfoldsTo(heap: Heap, x: Val, u: Unfolded)
    requires WellFormed(heap) && Refers(heap, x)
  {
    exists n: nat :: Unfold(heap, x, n) == Some(u)
  }

  // --- the encoder -------------------------------------------------------------------

  class Encoder {
    const heap: Heap
    var seen: set<Ref>
    var depth: nat

    constructor (heap: Heap)
      ensures this.heap == heap && seen == {} && depth == 0
    {
      this.heap, seen, depth := heap, {}, 0;
    }

    /** Writes x, and answers what it wrote. It ends on every heap; it succeeds exactly
        when x is a finite tree within the limit; and seen and depth are as they were. */
    method WriteAny(x: Val) returns (r: Option<Unfolded>)
      requires WellFormed(heap) && Refers(heap, x) && OnTheWay(heap, seen, x)
      modifies this
      ensures seen == old(seen) && depth == old(depth)
      ensures r.Some? <==> Encodes(heap, x, depth)
      ensures r.Some? ==> UnfoldsTo(heap, x, r.value)
      decreases heap.Keys - seen, 1
    {
      hide Encodes, UnfoldsTo, OnTheWay;
      LeafEncodes(heap, x, depth);
      if x.VNil? {
        return Some(UNil);
      }
      depth := depth + 1;
      if depth > W.MAX_DEPTH {
        depth := depth - 1;
        return None;
      }
      if x.VLeaf? {
        depth := depth - 1;
        return Some(ULeaf(x.tree));
      }
      var node := heap[x.ref];
      var marked := !(node.ListNode? && node.vals == []);
      if marked && x.ref in seen {
        ComesBack(heap, seen, x.ref, depth - 1);
        depth := depth - 1;
        return None;
      }
      if marked {
        seen := seen + {x.ref};
      }
      if node.PtrNode? {
        depth := depth - 1;
      }
      ghost var way := seen;
      assert forall i :: 0 <= i < |Held(node)| ==> OnTheWay(heap, seen, Held(node)[i]) by {
        forall i | 0 <= i < |Held(node)| ensures OnTheWay(heap, way, Held(node)[i]) {
          ChildIsBelow(heap, old(seen), x.ref, i);
        }
      }
      var us := WriteAll(x.ref, Held(node));
      if node.PtrNode? {
        depth := depth + 1;
      }
      if marked {
        seen := seen - {x.ref};
      }
      depth := depth - 1;
      NodeEncodes(heap, x.ref, depth, us);
      return if us.None? then None else Some(Wrap(node, us.value));
    }

    /** The values of the node at r, in order, from the first refused on left unwritten. */
    method WriteAll(r: Ref, xs: seq<Val>) returns (us: Option<seq<Unfolded>>)
      requires WellFormed(heap) && r in heap && xs == Held(heap[r])
      requires forall i :: 0 <= i < |xs| ==> OnTheWay(heap, seen, xs[i])
      modifies this
      ensures seen == old(seen) && depth == old(depth)
      ensures us.Some? <==> forall i :: 0 <= i < |xs| ==> Encodes(heap, xs[i], depth)
      ensures us.Some? ==> exists n: nat :: UnfoldAll(heap, xs, n) == us
      decreases heap.Keys - seen, if xs == [] then 0 else 2
    {
      var out := [];
      for i := 0 to |xs|
        invariant seen == old(seen) && depth == old(depth) && |out| == i
        invariant forall j :: 0 <= j < i ==> Encodes(heap, xs[j], depth) && UnfoldsTo(heap, xs[j], out[j])
      {
        var one := WriteAny(xs[i]);
        if one.None? {
          return None;
        }
        out := out + [one.value];
      }
      AllUnfold(heap, xs, out);
      return Some(out);
    }
  }

  lemma {:induction false} AllUnfold(heap: Heap, xs: seq<Val>, us: seq<Unfolded>)
    requires WellFormed(heap) && |us| == |xs|
    requires forall i :: 0 <= i < |xs| ==> Refers(heap, xs[i]) && UnfoldsTo(heap, xs[i], us[i])
    ensures exists n: nat :: UnfoldAll(heap, xs, n) == Some(us)
    decreases |xs|
  {
    if xs == [] {
      assert UnfoldAll(heap, xs, 0) == Some(us);
    } else {
      var m :| Unfold(heap, xs[0], m) == Some(us[0]);
      AllUnfold(heap, xs[1..], us[1..]);
      var n :| UnfoldAll(heap, xs[1..], n) == Some(us[1..]);
      var most := if m < n then n else m;
      UnfoldsFurther(heap, xs[0], m, most);
      AllUnfoldFurther(heap, xs[1..], n, most);
      assert [us[0]] + us[1..] == us;
      assert UnfoldAll(heap, xs, most) == Some(us);
    }
  }

  /** How deep a node's values lie below it. */
  function Below(node: Node, depth: nat): nat {
    if node.PtrNode? then depth else depth + 1
  }

  /** A node encodes exactly when all it holds does. */
  lemma NodeEncodes(heap: Heap, r: Ref, depth: nat, us: Option<seq<Unfolded>>)
    requires WellFormed(heap) && r in heap && depth < W.MAX_DEPTH
    requires us.Some? <==> forall i :: 0 <= i < |Held(heap[r])| ==>
      Encodes(heap, Held(heap[r])[i], Below(heap[r], depth))
    requires us.Some? ==> exists n: nat :: UnfoldAll(heap, Held(heap[r]), n) == us
    ensures us.Some? <==> Encodes(heap, VRef(r), depth)
    ensures us.Some? ==> UnfoldsTo(heap, VRef(r), Wrap(heap[r], us.value))
  {
    var node := heap[r];
    var xs, below := Held(node), Below(node, depth);
    if Encodes(heap, VRef(r), depth) {
      var n: nat :| EncodesAt(heap, VRef(r), depth, n);
      forall i | 0 <= i < |xs| ensures Encodes(heap, xs[i], below) {
        AllUnfoldEach(heap, xs, n - 1, i);
        assert EncodesAt(heap, xs[i], below, n - 1);
      }
    }
    if us.Some? {
      var n: nat :| UnfoldAll(heap, xs, n) == us;
      forall i | 0 <= i < |xs| ensures Within(us.value[i], below) {
        var m: nat :| EncodesAt(heap, xs[i], below, m);
        AllUnfoldEach(heap, xs, n, i);
        if m < n { UnfoldsFurther(heap, xs[i], m, n); } else { UnfoldsFurther(heap, xs[i], n, m); }
      }
      assert Unfold(heap, VRef(r), n + 1) == Some(Wrap(node, us.value));
      assert EncodesAt(heap, VRef(r), depth, n + 1);
    }
  }

  /** From nothing open, encoding ends on every heap, and succeeds if and only if nothing
      comes back to itself and the tree is within the limit: cycles are refused, shared parts
      that are none are not. */
  method EncodeHeap(heap: Heap, x: Val) returns (r: Option<Unfolded>)
    requires WellFormed(heap) && Refers(heap, x)
    ensures r.Some? <==> Acyclic(heap, x) && Unfold(heap, x, |heap|).Some? && Within(Unfold(heap, x, |heap|).value, 0)
    ensures r.Some? ==> r == Unfold(heap, x, |heap|)
  {
    var e := new Encoder(heap);
    r := e.WriteAny(x);
    EncodesExactly(heap, x, 0);
    if r.Some? {
      ghost var n: nat :| Unfold(heap, x, n) == r;
      if n < |heap| { UnfoldsFurther(heap, x, n, |heap|); } else { UnfoldsFurther(heap, x, |heap|, n); }
    }
  }
}
