/** The kinds a bridge knows, and the closures it lists: what a provider's slots reach, and
    the objects they answer. */
module Kinds {
  import opened Texts

  datatype ArgType = Plain | Object(kind: Text)

  datatype AnswerType = Nothing | Value | Object(kind: Text)

  datatype Slot = Slot(name: Text, args: seq<ArgType>, answer: AnswerType)

  datatype Kind = Kind(name: Text, slots: seq<Slot>)

  function ArgKinds(args: seq<ArgType>): seq<Text> {
    if args == [] then []
    else ArgKinds(args[..|args| - 1]) + if args[|args| - 1].Object? then [args[|args| - 1].kind] else []
  }

  function AnswerKinds(slot: Slot): seq<Text> {
    if slot.answer.Object? then [slot.answer.kind] else []
  }

  /** The kinds one step from these slots: every object kind an argument or an answer names. */
  function Reaches(slots: seq<Slot>): seq<Text> {
    if slots == [] then []
    else
      var last := slots[|slots| - 1];
      Reaches(slots[..|slots| - 1]) + ArgKinds(last.args) + AnswerKinds(last)
  }

  /** The object kinds the slots answer, in slot order. */
  function Answers(slots: seq<Slot>): seq<Text> {
    if slots == [] then [] else Answers(slots[..|slots| - 1]) + AnswerKinds(slots[|slots| - 1])
  }

  /** A kind is one step from the slots if and only if some slot takes an object of it or answers
      one. */
  lemma {:induction false} ReachesExactly(slots: seq<Slot>, kind: Text)
    ensures kind in Reaches(slots)
      <==> exists i :: 0 <= i < |slots|
             && (slots[i].answer == AnswerType.Object(kind) || ArgType.Object(kind) in slots[i].args)
    decreases |slots|
  {
    if slots != [] {
      var front, last := slots[..|slots| - 1], slots[|slots| - 1];
      ReachesExactly(front, kind);
      ArgKindsExactly(last.args, kind);
      forall i | 0 <= i < |front| ensures front[i] == slots[i] {}
    }
  }

  lemma {:induction false} ArgKindsExactly(args: seq<ArgType>, kind: Text)
    ensures kind in ArgKinds(args) <==> ArgType.Object(kind) in args
    decreases |args|
  {
    if args != [] {
      ArgKindsExactly(args[..|args| - 1], kind);
      assert args == args[..|args| - 1] + [args[|args| - 1]];
    }
  }

  lemma {:induction false} AnswersExactly(slots: seq<Slot>, kind: Text)
    ensures kind in Answers(slots) <==> exists i :: 0 <= i < |slots| && slots[i].answer == AnswerType.Object(kind)
    decreases |slots|
  {
    if slots != [] {
      var front := slots[..|slots| - 1];
      AnswersExactly(front, kind);
      forall i | 0 <= i < |front| ensures front[i] == slots[i] {}
    }
  }

  lemma {:induction false} ReachesLast(slots: seq<Slot>)
    requires slots != []
    ensures var last := slots[|slots| - 1];
      Reaches(slots) == Reaches(slots[..|slots| - 1]) + ArgKinds(last.args) + AnswerKinds(last)
  {
  }

  lemma {:induction false} ReachesBoth(a: seq<Slot>, b: seq<Slot>)
    ensures Reaches(a + b) == Reaches(a) + Reaches(b)
    decreases |b|
  {
    if b == [] {
      assert a + b == a;
    } else {
      hide Reaches, ArgKinds, AnswerKinds;
      var last := |b| - 1;
      var both := a + b;
      assert both[..|both| - 1] == a + b[..last] && both[|both| - 1] == b[last];
      ReachesBoth(a, b[..last]);
      ReachesLast(both);
      ReachesLast(b);
      var front := Reaches(b[..last]);
      Regroup(Reaches(a), front, ArgKinds(b[last].args));
      Regroup(Reaches(a), front + ArgKinds(b[last].args), AnswerKinds(b[last]));
    }
  }

  lemma {:induction false} ArgKindsBoth(a: seq<ArgType>, b: seq<ArgType>)
    ensures ArgKinds(a + b) == ArgKinds(a) + ArgKinds(b)
    decreases |b|
  {
    if b == [] {
      assert a + b == a;
    } else {
      var last := |b| - 1;
      var both := a + b;
      assert both[..|both| - 1] == a + b[..last] && both[|both| - 1] == b[last];
      ArgKindsBoth(a, b[..last]);
      Regroup(ArgKinds(a), ArgKinds(b[..last]), if b[last].Object? then [b[last].kind] else []);
    }
  }

  /** They are visited slot by slot, and of a slot its arguments in order, then its answer. */
  lemma {:induction false} ReachesInOrder(before: seq<Slot>, slot: Slot, first: seq<ArgType>, arg: ArgType,
        rest: seq<ArgType>, after: seq<Slot>)
    requires slot.args == first + [arg] + rest
    ensures Reaches(before + [slot] + after)
         == Reaches(before)
            + (ArgKinds(first) + (if arg.Object? then [arg.kind] else []) + ArgKinds(rest)
               + (if slot.answer.Object? then [slot.answer.kind] else []))
            + Reaches(after)
  {
    ArgKindsBoth(first + [arg], rest);
    ArgKindsBoth(first, [arg]);
    assert [arg][..0] == [] && [slot][..0] == [];
    assert ArgKinds([arg]) == if arg.Object? then [arg.kind] else [];
    assert Reaches([slot]) == ArgKinds(slot.args) + AnswerKinds(slot);
    hide Reaches, ArgKinds;
    ReachesBoth(before + [slot], after);
    ReachesBoth(before, [slot]);
  }

  // --- depth first ------------------------------------------------------------------------

  type Graph = map<Text, seq<Text>>

  function Next(g: Graph, name: Text): seq<Text> {
    if name in g then g[name] else []
  }

  ghost function Names(order: seq<Text>): set<Text> {
    set n | n in order
  }

  /** Depth first, each name before those it leads to: todo is what is yet to be visited,
      order what was, and only names in list are. */
  ghost function Visit(g: Graph, list: set<Text>, todo: seq<Text>, order: seq<Text>): (r: seq<Text>)
    ensures order <= r
    decreases |list - Names(order)|, |todo|
  {
    if todo == [] then order
    else if todo[0] !in list || todo[0] in order then Visit(g, list, todo[1..], order)
    else
      Fewer(list, order, todo[0]);
      Visit(g, list, Next(g, todo[0]) + todo[1..], order + [todo[0]])
  }

  lemma Fewer(list: set<Text>, order: seq<Text>, name: Text)
    requires name in list && name !in order
    ensures |list - Names(order + [name])| < |list - Names(order)|
  {
    assert Names(order + [name]) == Names(order) + {name};
    assert list - Names(order + [name]) == list - Names(order) - {name};
    assert name in list - Names(order);
  }

  lemma FewerSince(list: set<Text>, order: seq<Text>, later: seq<Text>)
    requires order <= later
    ensures |list - Names(later)| <= |list - Names(order)|
  {
    Subset(list - Names(later), list - Names(order));
  }

  lemma {:induction false} Subset<T>(a: set<T>, b: set<T>)
    requires a <= b
    ensures |a| <= |b|
  {
    if a != {} {
      var x :| x in a;
      Subset(a - {x}, b - {x});
    }
  }

  /** One list of names after another is both in a row. */
  lemma {:induction false} VisitBoth(g: Graph, list: set<Text>, first: seq<Text>, after: seq<Text>, order: seq<Text>)
    ensures Visit(g, list, first + after, order) == Visit(g, list, after, Visit(g, list, first, order))
    decreases |list - Names(order)|, |first|
  {
    var all := first + after;
    if first == [] {
      assert all == after;
    } else {
      assert all[1..] == first[1..] + after;
      if first[0] !in list || first[0] in order {
        VisitBoth(g, list, first[1..], after, order);
      } else {
        Fewer(list, order, first[0]);
        var next := Next(g, first[0]);
        VisitBoth(g, list, next + first[1..], after, order + [first[0]]);
        Regroup(next, first[1..], after);
      }
    }
  }

  // --- what a visit lists ------------------------------------------------------------------

  ghost predicate NoRepeat(order: seq<Text>) {
    forall i, j :: 0 <= i < j < |order| ==> order[i] != order[j]
  }

  /** Whatever in list a listed name leads to is listed, or still to be visited. */
  ghost predicate ClosedBut(g: Graph, list: set<Text>, order: seq<Text>, todo: seq<Text>) {
    forall n, m :: n in order && m in Next(g, n) && m in list ==> m in order || m in todo
  }

  /** A set that has what list has of todo and leads nowhere in list outside itself. */
  ghost predicate Holds(g: Graph, list: set<Text>, todo: seq<Text>, s: set<Text>) {
    && (forall n :: n in todo && n in list ==> n in s)
    && (forall n, m :: n in s && m in Next(g, n) && m in list ==> m in s)
  }

  lemma NextIsClosed(g: Graph, list: set<Text>, todo: seq<Text>, order: seq<Text>)
    requires NoRepeat(order) && todo != [] && ClosedBut(g, list, order, todo)
    ensures todo[0] !in list || todo[0] in order ==> ClosedBut(g, list, order, todo[1..])
    ensures todo[0] !in order ==> NoRepeat(order + [todo[0]])
    ensures todo[0] !in order ==> ClosedBut(g, list, order + [todo[0]], Next(g, todo[0]) + todo[1..])
  {
    assert todo == [todo[0]] + todo[1..];
  }

  lemma {:induction false} VisitIsClosed(g: Graph, list: set<Text>, todo: seq<Text>, order: seq<Text>)
    requires NoRepeat(order) && ClosedBut(g, list, order, todo)
    ensures var r := Visit(g, list, todo, order);
      NoRepeat(r) && ClosedBut(g, list, r, []) && forall n :: n in todo && n in list ==> n in r
    decreases |list - Names(order)|, |todo|
  {
    if todo != [] {
      NextIsClosed(g, list, todo, order);
      var name, rest := todo[0], todo[1..];
      assert todo == [name] + rest;
      if name !in list || name in order {
        VisitIsClosed(g, list, rest, order);
      } else {
        Fewer(list, order, name);
        VisitIsClosed(g, list, Next(g, name) + rest, order + [name]);
        assert name in order + [name];
      }
    }
  }

  lemma {:induction false} VisitIsLeast(g: Graph, list: set<Text>, todo: seq<Text>, order: seq<Text>, s: set<Text>)
    requires Holds(g, list, todo, s) && Names(order) <= s
    ensures Names(Visit(g, list, todo, order)) <= s
    decreases |list - Names(order)|, |todo|
  {
    if todo != [] {
      if todo[0] !in list || todo[0] in order {
        VisitIsLeast(g, list, todo[1..], order, s);
      } else {
        Fewer(list, order, todo[0]);
        VisitIsLeast(g, list, Next(g, todo[0]) + todo[1..], order + [todo[0]], s);
      }
    }
  }

  /** A visit from nothing lists, each once, exactly the names in list that are among todo
      or that a listed one leads to: the least set with them, cycles or not. */
  lemma {:induction false} VisitIsReachable(g: Graph, list: set<Text>, todo: seq<Text>)
    ensures var r := Visit(g, list, todo, []);
      && NoRepeat(r) && Holds(g, list, todo, Names(r))
      && forall s :: Holds(g, list, todo, s) ==> Names(r) <= s
  {
    VisitIsClosed(g, list, todo, []);
    forall s | Holds(g, list, todo, s) ensures Names(Visit(g, list, todo, [])) <= s {
      VisitIsLeast(g, list, todo, [], s);
    }
  }

  // --- the kinds known -----------------------------------------------------------------

  class Known {
    var byName: map<Text, Kind>

    ghost predicate Valid()
      reads this
    {
      forall n :: n in byName ==> byName[n].name == n
    }

    /** What each kind's slots reach. */
    ghost function Reaching(): Graph
      reads this
    {
      map n | n in byName :: Reaches(byName[n].slots)
    }

    ghost function Answering(): Graph
      reads this
    {
      map n | n in byName :: Answers(byName[n].slots)
    }

    constructor ()
      ensures Valid() && byName == map[]
    {
      byName := map[];
    }

    /** Adds one kind; refused when another is known by its name. */
    method Add(kind: Kind) returns (ok: bool)
      requires Valid()
      modifies this
      ensures Valid() && ok == (kind.name in old(byName) ==> old(byName)[kind.name] == kind)
      ensures byName == if ok then old(byName)[kind.name := kind] else old(byName)
    {
      if kind.name in byName {
        ok := byName[kind.name] == kind;
        assert ok ==> byName[kind.name := kind] == byName;
      } else {
        byName := byName[kind.name := kind];
        ok := true;
      }
    }

    /** The recursive walk from name extends order to what a depth-first visit would list: on
        cyclic kinds too, since a kind listed is not entered again. */
    method Reach(name: Text, order: seq<Text>) returns (r: seq<Text>)
      requires Valid()
      ensures r == Visit(Reaching(), byName.Keys, [name], order)
      decreases |byName.Keys - Names(order)|, 0
    {
      if name !in byName || name in order { return order; }
      ghost var g, list := Reaching(), byName.Keys;
      Fewer(list, order, name);
      var slots := byName[name].slots;
      var start := order + [name];
      r := start;
      for i := 0 to |slots|
        invariant start <= r && r == Visit(g, list, Reaches(slots[..i]), start)
      {
        assert slots[..i + 1][..i] == slots[..i];
        FewerSince(list, start, r);
        ghost var before, args, answer := Reaches(slots[..i]), ArgKinds(slots[i].args), AnswerKinds(slots[i]);
        VisitBoth(g, list, before, args, start);
        VisitBoth(g, list, before + args, answer, start);
        r := ReachArgs(slots[i].args, r);
        FewerSince(list, start, r);
        if slots[i].answer.Object? { r := Reach(slots[i].answer.kind, r); }
      }
      assert slots[..|slots|] == slots;
      assert Next(g, name) + [name][1..] == Reaches(slots);
    }

    /** Reaches each object kind among the arguments. */
    method ReachArgs(args: seq<ArgType>, order: seq<Text>) returns (r: seq<Text>)
      requires Valid()
      ensures r == Visit(Reaching(), byName.Keys, ArgKinds(args), order)
      decreases |byName.Keys - Names(order)|, 1
    {
      ghost var g, list := Reaching(), byName.Keys;
      r := order;
      for j := 0 to |args|
        invariant order <= r && r == Visit(g, list, ArgKinds(args[..j]), order)
      {
        assert args[..j + 1][..j] == args[..j];
        FewerSince(list, order, r);
        ghost var before := ArgKinds(args[..j]);
        if args[j].Object? {
          VisitBoth(g, list, before, [args[j].kind], order);
          r := Reach(args[j].kind, r);
        } else {
          assert before + [] == before;
        }
      }
      assert args[..|args|] == args;
    }

    /** The kinds a provider's document holds: depth first, each kind once, the known ones
        that are served or that a listed one's slots take or answer, and no others. */
    method Document(served: seq<Text>) returns (order: seq<Text>)
      requires Valid()
      ensures order == Visit(Reaching(), byName.Keys, served, [])
      ensures NoRepeat(order) && Holds(Reaching(), byName.Keys, served, Names(order))
      ensures forall s :: Holds(Reaching(), byName.Keys, served, s) ==> Names(order) <= s
    {
      order := [];
      for i := 0 to |served|
        invariant order == Visit(Reaching(), byName.Keys, served[..i], [])
      {
        VisitBoth(Reaching(), byName.Keys, served[..i], [served[i]], []);
        assert served[..i + 1] == served[..i] + [served[i]];
        order := Reach(served[i], order);
      }
      assert served[..|served|] == served;
      VisitIsReachable(Reaching(), byName.Keys, served);
    }

    /** The closure over answers alone, kinds not known listed too. all is any set that has
        every name an answer has, and bounds the recursion. */
    method AnsweredObjects(slots: seq<Slot>, into: seq<Text>, ghost all: set<Text>) returns (r: seq<Text>)
      requires Valid() && Names(Answers(slots)) <= all
      requires forall n :: n in byName ==> Names(Answers(byName[n].slots)) <= all
      ensures r == Visit(Answering(), all, Answers(slots), into)
      ensures into == [] ==> NoRepeat(r) && Holds(Answering(), all, Answers(slots), Names(r))
      ensures into == [] ==> forall s :: Holds(Answering(), all, Answers(slots), s) ==> Names(r) <= s
      decreases |all - Names(into)|
    {
      r := into;
      ghost var g := Answering();
      for i := 0 to |slots|
        invariant into <= r && r == Visit(g, all, Answers(slots[..i]), into)
      {
        assert slots[..i + 1][..i] == slots[..i];
        ghost var before := Answers(slots[..i]);
        assert before + [] == before;
        if slots[i].answer.Object? {
          var answered := slots[i].answer.kind;
          VisitBoth(g, all, before, [answered], into);
          AnswerIsNamed(slots, i);
          if answered !in r {
            FewerSince(all, into, r);
            Fewer(all, r, answered);
            var now := r + [answered];
            assert Next(g, answered) + [answered][1..] == Next(g, answered);
            r := now;
            if answered in byName {
              r := AnsweredObjects(byName[answered].slots, now, all);
            }
          }
        }
      }
      assert slots[..|slots|] == slots;
      VisitIsReachable(g, all, Answers(slots));
    }
  }

  lemma {:induction false} AnswerIsNamed(slots: seq<Slot>, i: nat)
    requires i < |slots| && slots[i].answer.Object?
    ensures slots[i].answer.kind in Answers(slots)
  {
    if i < |slots| - 1 { AnswerIsNamed(slots[..|slots| - 1], i); }
  }
}
