/** An engine bound to one thread: callers queue jobs to it and wait, and the jobs may call
    back into it. Every run of the machine answers as a serial engine would. */
module Pinned {
  import opened Texts

  type Thread = nat
  type Job = nat

  /** What a call does on the engine: touches its state, calls the engine through the host and
      goes on by what that answered, panics or returns. */
  datatype Code =
    | Return
    | Panic
    | Touch(n: int, next: Code)
    | Call(inner: Code, answered: Code, gone: Code)

  /** What the engine's state keeps of the calls: what they did to it, and what the calls they
      made were answered. */
  datatype Mark = Touched(n: int) | Heard(outcome: Outcome)

  /** What a call answers: the engine's state once it returned, or EngineGone. */
  datatype Outcome = Answered(log: seq<Mark>) | EngineGone

  /** A call that waits for one it made. */
  datatype Frame = Frame(answered: Code, gone: Code)

  function Next(frame: Frame, outcome: Outcome): Code {
    if outcome.Answered? then frame.answered else frame.gone
  }

  // --- the serial engine -------------------------------------------------------------

  datatype Ran = Ran(log: seq<Mark>, outcome: Outcome)

  /** One call run there and then, and the calls it makes inside it: a panic ends one and is
      caught around that one alone. */
  function Eval(code: Code, log: seq<Mark>): Ran {
    match code
    case Return => Ran(log, Answered(log))
    case Panic => Ran(log, EngineGone)
    case Touch(n, next) => Eval(next, log + [Touched(n)])
    case Call(inner, answered, gone) =>
      var ran := Eval(inner, log);
      if ran.outcome.Answered? then Eval(answered, ran.log + [Heard(ran.outcome)])
      else Eval(gone, ran.log + [Heard(ran.outcome)])
  }

  /** The engine's state once the calls in codes ran one after another. */
  function Serial(codes: seq<Code>): seq<Mark> {
    if codes == [] then []
    else Eval(codes[|codes| - 1], Serial(codes[..|codes| - 1])).log
  }

  /** The i-th of them, run on what those before it left. */
  function SerialRun(codes: seq<Code>, i: nat): Ran
    requires i < |codes|
  {
    Eval(codes[i], Serial(codes[..i]))
  }

  // --- the machine -----------------------------------------------------------------

  /** engine is the thread started for the engine, owned whether its cell holds the engine.
      sent are the jobs queued, in order, and callers who queued each; the first taken of them
      left the queue. code is what the engine thread runs, None between jobs, and outer the
      calls around it that wait for it. answers hold what a job's own channel was sent, until
      its caller takes it; got what the callers took. */
  datatype State = State(
    engine: Thread,
    owned: bool,
    up: bool,
    handles: nat,
    sent: seq<Code>,
    callers: seq<Thread>,
    taken: nat,
    code: Option<Code>,
    outer: seq<Frame>,
    log: seq<Mark>,
    answers: map<Job, Outcome>,
    waiting: map<Thread, Job>,
    got: map<Job, Outcome>)

  datatype Event =
    | Clone
    | DropHandle
    | Run(thread: Thread, code: Code)
    | Take
    | Work
    | Receive(thread: Thread)
    | Stop

  function Started(engine: Thread): State {
    State(engine, true, true, 1, [], [], 0, None, [], [], map[], map[], map[])
  }

  /** thread calls run with code, to go on by frame: the engine's own thread runs it there and
      then, with the engine its cell holds; any other queues it and waits. */
  function RunOn(s: State, thread: Thread, code: Code, frame: Frame): State {
    if thread == s.engine then
      if s.owned then s.(code := Some(code), outer := s.outer + [frame])
      else s.(code := Some(frame.gone), log := s.log + [Heard(EngineGone)])
    else s.(sent := s.sent + [code], callers := s.callers + [thread], waiting := s.waiting[thread := |s.sent|])
  }

  /** The call under way ends: the call around it goes on, or its job is answered. */
  function Ended(s: State, outcome: Outcome): State
    requires s.taken > 0
  {
    if s.outer == [] then s.(code := None, answers := s.answers[s.taken - 1 := outcome])
    else
      var last := |s.outer| - 1;
      s.(code := Some(Next(s.outer[last], outcome)), outer := s.outer[..last], log := s.log + [Heard(outcome)])
  }

  /** One action on the engine thread. */
  function Worked(s: State): State
    requires s.code.Some? && s.taken > 0
  {
    match s.code.value
    case Return => Ended(s, Answered(s.log))
    case Panic => Ended(s, EngineGone)
    case Touch(n, next) => s.(code := Some(next), log := s.log + [Touched(n)])
    case Call(inner, answered, gone) => RunOn(s, s.engine, inner, Frame(answered, gone))
  }

  /** What a step makes of s; None when it is not enabled. A thread that waits does nothing
      else; the engine thread makes calls only as its code does. */
  function Apply(s: State, ev: Event): Option<State> {
    match ev
    case Clone => if s.handles > 0 then Some(s.(handles := s.handles + 1)) else None
    // A caller that waits borrows a handle.
    case DropHandle =>
      if s.handles > 1 || (s.handles == 1 && s.waiting == map[])
      then Some(s.(handles := s.handles - 1)) else None
    case Run(thread, code) =>
      if s.up && s.handles > 0 && thread != s.engine && thread !in s.waiting
      then Some(RunOn(s, thread, code, Frame(Return, Return))) else None
    case Take =>
      if s.up && s.code.None? && s.taken < |s.sent|
      then Some(s.(taken := s.taken + 1, code := Some(s.sent[s.taken])))
      else None
    case Work =>
      if s.code.Some? && s.taken > 0 && s.engine !in s.waiting then Some(Worked(s)) else None
    case Receive(thread) =>
      if thread in s.waiting && s.waiting[thread] in s.answers then
        var job := s.waiting[thread];
        Some(s.(waiting := s.waiting - {thread}, answers := s.answers - {job},
                got := s.got[job := s.answers[job]]))
      else None
    // The loop over the queue ends once every handle on it is gone, and empties the cell.
    case Stop =>
      if s.up && s.handles == 0 && s.code.None? && s.taken == |s.sent|
      then Some(s.(up := false, owned := false)) else None
  }

  /** The state after a whole run; None when some step of it was not enabled. */
  function Runs(s: State, evs: seq<Event>): Option<State>
    decreases |evs|
  {
    if evs == [] then Some(s)
    else match Apply(s, evs[0])
      case None => None
      case Some(next) => Runs(next, evs[1..])
  }

  // --- what every step keeps -----------------------------------------------------------

  /** The state the engine comes to, and the job's answer, when the call under way and those
      around it run to their ends. */
  function Resume(code: Code, outer: seq<Frame>, log: seq<Mark>): Ran
    decreases |outer|
  {
    var ran := Eval(code, log);
    if outer == [] then ran
    else
      var last := |outer| - 1;
      Resume(Next(outer[last], ran.outcome), outer[..last], ran.log + [Heard(ran.outcome)])
  }

  /** How many jobs have run to their end. */
  function Finished(s: State): nat {
    if s.code.None? || s.taken == 0 then s.taken else s.taken - 1
  }

  ghost predicate Waits(callers: seq<Thread>, waiting: map<Thread, Job>, j: Job)
    requires j < |callers|
  {
    callers[j] in waiting && waiting[callers[j]] == j
  }

  /** The engine's state is the serial one, and a job under way will leave it so. */
  ghost predicate Serially(s: State) {
    && s.taken <= |s.sent| == |s.callers|
    && (s.code.Some? ==> s.taken > 0 && s.owned)
    && (match s.code
        case None => s.outer == [] && s.log == Serial(s.sent[..s.taken])
        case Some(code) => Resume(code, s.outer, s.log) == SerialRun(s.sent, s.taken - 1))
  }

  /** Every answer is the serial one, of one of the first n jobs. */
  ghost predicate Right(sent: seq<Code>, n: nat, answers: map<Job, Outcome>)
    requires n <= |sent|
  {
    forall j :: j in answers ==> j < n && answers[j] == SerialRun(sent, j).outcome
  }

  /** A job is waited for by the caller who sent it or was answered to it, never both; one
      waited for has its answer at hand as soon as it ended. */
  ghost predicate EachOnce(callers: seq<Thread>, n: nat, waiting: map<Thread, Job>, answers: set<Job>, got: set<Job>)
    requires n <= |callers|
  {
    && (forall c :: c in waiting ==> waiting[c] < |callers| && callers[waiting[c]] == c)
    && (forall j :: 0 <= j < |callers| ==> Waits(callers, waiting, j) == (j !in got))
    && (forall j :: 0 <= j < |callers| ==> (j in answers) == (j < n && Waits(callers, waiting, j)))
  }

  ghost predicate LivesLong(s: State) {
    && (s.waiting != map[] ==> s.handles > 0)
    && (s.handles > 0 ==> s.up)
    && (!s.up ==> s.code.None? && s.taken == |s.sent|)
    && s.up == s.owned
  }

  /** The engine's own thread never queued to itself, so it never waits for itself. */
  ghost predicate NeverQueuesItself(s: State) {
    s.engine !in s.callers && s.engine !in s.waiting
  }

  ghost predicate Inv(s: State) {
    && Serially(s)
    && Right(s.sent, Finished(s), s.answers)
    && Right(s.sent, Finished(s), s.got)
    && EachOnce(s.callers, Finished(s), s.waiting, s.answers.Keys, s.got.Keys)
    && LivesLong(s)
    && NeverQueuesItself(s)
  }

  /** A call the engine makes is what the serial engine makes of it: run inside its caller,
      which goes on by what it answered. */
  lemma {:induction false} CallResumes(inner: Code, frame: Frame, outer: seq<Frame>, log: seq<Mark>)
    ensures Resume(Call(inner, frame.answered, frame.gone), outer, log) == Resume(inner, outer + [frame], log)
  {
    assert (outer + [frame])[..|outer|] == outer;
  }

  lemma {:induction false} SerialGrows(codes: seq<Code>, n: nat)
    requires n < |codes|
    ensures Serial(codes[..n + 1]) == SerialRun(codes, n).log
  {
    assert codes[..n + 1][..n] == codes[..n];
  }

  /** A call that ends leaves the one around it to go on by its outcome. */
  lemma {:induction false} EndResumes(code: Code, outer: seq<Frame>, log: seq<Mark>)
    requires code.Return? || code.Panic?
    ensures var outcome, last := (if code.Return? then Answered(log) else EngineGone), |outer| - 1;
      Resume(code, outer, log)
      == if outer == [] then Ran(log, outcome)
         else Resume(Next(outer[last], outcome), outer[..last], log + [Heard(outcome)])
  {
  }

  lemma {:induction false} TouchResumes(n: int, next: Code, outer: seq<Frame>, log: seq<Mark>)
    ensures Resume(Touch(n, next), outer, log) == Resume(next, outer, log + [Touched(n)])
  {
  }

  lemma {:induction false} WorkIsSerial(s: State)
    requires Serially(s) && s.code.Some?
    ensures Serially(Worked(s))
    ensures var next := Worked(s);
      next.answers == if next.code.None? then s.answers[s.taken - 1 := SerialRun(s.sent, s.taken - 1).outcome]
                      else s.answers
  {
    hide Resume, Eval, Serial, SerialRun;
    match s.code.value
    case Call(inner, answered, gone) => CallResumes(inner, Frame(answered, gone), s.outer, s.log);
    case Touch(n, next) => TouchResumes(n, next, s.outer, s.log);
    case Return =>
      EndResumes(Return, s.outer, s.log);
      SerialGrows(s.sent, s.taken - 1);
    case Panic =>
      EndResumes(Panic, s.outer, s.log);
      SerialGrows(s.sent, s.taken - 1);
  }

  /** Re-entry takes no turn: a call the running code makes becomes the running code at once,
      with queue, answers and waiters as they were. */
  lemma {:induction false} ReentryNeverQueues(s: State)
    requires Serially(s) && s.code.Some? && s.code.value.Call?
    ensures var next := Worked(s);
      && next.code == Some(s.code.value.inner) && |next.outer| == |s.outer| + 1
      && next.sent == s.sent && next.callers == s.callers && next.taken == s.taken
      && next.waiting == s.waiting && next.answers == s.answers && next.got == s.got
  {
  }

  lemma OneEnds(callers: seq<Thread>, n: nat, waiting: map<Thread, Job>, answers: set<Job>, got: set<Job>)
    requires n < |callers| && EachOnce(callers, n, waiting, answers, got) && n !in got
    ensures EachOnce(callers, n + 1, waiting, answers + {n}, got)
  {
    assert Waits(callers, waiting, n);
  }

  lemma OneMoreWaits(callers: seq<Thread>, c: Thread, n: nat, waiting: map<Thread, Job>, answers: set<Job>,
        got: set<Job>)
    requires n <= |callers| && EachOnce(callers, n, waiting, answers, got)
    requires c !in waiting && |callers| !in got && |callers| !in answers
    ensures EachOnce(callers + [c], n, waiting[c := |callers|], answers, got)
  {
    var more, waits := callers + [c], waiting[c := |callers|];
    forall j | 0 <= j < |callers| ensures Waits(more, waits, j) == Waits(callers, waiting, j) {}
    assert Waits(more, waits, |callers|);
  }

  lemma OneLessWaits(callers: seq<Thread>, c: Thread, n: nat, waiting: map<Thread, Job>, answers: set<Job>,
        got: set<Job>)
    requires n <= |callers| && EachOnce(callers, n, waiting, answers, got) && c in waiting
    ensures waiting[c] !in got
    ensures EachOnce(callers, n, waiting - {c}, answers - {waiting[c]}, got + {waiting[c]})
  {
    assert Waits(callers, waiting, waiting[c]);
    forall j | 0 <= j < |callers|
      ensures Waits(callers, waiting - {c}, j) == (Waits(callers, waiting, j) && j != waiting[c]) {}
  }

  lemma {:induction false} EndLeavesAlone(s: State, outcome: Outcome)
    requires s.taken > 0
    ensures var next := Ended(s, outcome);
      next == s.(code := next.code, outer := next.outer, log := next.log, answers := next.answers)
  {
  }

  /** What a step on the engine thread leaves alone. */
  lemma {:induction false} WorkLeavesAlone(s: State)
    requires s.code.Some? && s.taken > 0 && s.owned
    ensures var next := Worked(s);
      next == s.(code := next.code, outer := next.outer, log := next.log, answers := next.answers)
  {
    if s.code.value.Return? || s.code.value.Panic? {
      EndLeavesAlone(s, if s.code.value.Return? then Answered(s.log) else EngineGone);
    }
  }

  lemma {:induction false} WorkKeeps(s: State)
    requires Inv(s) && s.code.Some?
    ensures Inv(Worked(s))
  {
    hide Resume, Serial, Eval, Worked;
    WorkIsSerial(s);
    WorkLeavesAlone(s);
    var next, job := Worked(s), s.taken - 1;
    if next.code.None? {
      assert next.answers.Keys == s.answers.Keys + {job};
      OneEnds(s.callers, job, s.waiting, s.answers.Keys, s.got.Keys);
    }
  }

  lemma {:induction false} TakeKeeps(s: State, next: State)
    requires Inv(s) && Apply(s, Take) == Some(next)
    ensures Inv(next)
  {
    assert Resume(next.code.value, [], next.log) == SerialRun(s.sent, s.taken);
    hide Resume, Serial, Eval, Right, EachOnce;
    assert Finished(next) == Finished(s);
  }

  lemma {:induction false} HandleKeeps(s: State, ev: Event, next: State)
    requires (ev.Clone? || ev.DropHandle? || ev.Stop?) && Inv(s) && Apply(s, ev) == Some(next)
    ensures Inv(next)
  {
    hide Resume, Serial, Eval, Right, EachOnce;
  }

  lemma PrefixesStay(sent: seq<Code>, code: Code, n: nat)
    requires n <= |sent|
    ensures (sent + [code])[..n] == sent[..n]
    ensures n < |sent| ==> SerialRun(sent + [code], n) == SerialRun(sent, n)
  {
  }

  lemma RightStays(sent: seq<Code>, code: Code, n: nat, answers: map<Job, Outcome>)
    requires n <= |sent| && Right(sent, n, answers)
    ensures Right(sent + [code], n, answers)
  {
    forall j | j in answers ensures SerialRun(sent + [code], j) == SerialRun(sent, j) {
      PrefixesStay(sent, code, j);
    }
  }

  lemma {:induction false} SendKeeps(s: State, thread: Thread, code: Code, next: State)
    requires Inv(s) && Apply(s, Run(thread, code)) == Some(next)
    ensures Inv(next)
  {
    hide Resume, Serial, Eval;
    PrefixesStay(s.sent, code, s.taken);
    if s.taken > 0 { PrefixesStay(s.sent, code, s.taken - 1); }
    RightStays(s.sent, code, Finished(s), s.answers);
    RightStays(s.sent, code, Finished(s), s.got);
    OneMoreWaits(s.callers, thread, Finished(s), s.waiting, s.answers.Keys, s.got.Keys);
  }

  lemma RightMoves(sent: seq<Code>, n: nat, answers: map<Job, Outcome>, got: map<Job, Outcome>, j: Job)
    requires n <= |sent| && Right(sent, n, answers) && Right(sent, n, got) && j in answers
    ensures Right(sent, n, answers - {j}) && Right(sent, n, got[j := answers[j]])
  {
  }

  lemma {:induction false} ReceiveKeeps(s: State, thread: Thread, next: State)
    requires Inv(s) && Apply(s, Receive(thread)) == Some(next)
    ensures Inv(next)
    ensures s.waiting[thread] !in s.got && next.got.Keys == s.got.Keys + {s.waiting[thread]}
  {
    hide Resume, Serial, Eval, Right, EachOnce;
    RightMoves(s.sent, Finished(s), s.answers, s.got, s.waiting[thread]);
    OneLessWaits(s.callers, thread, Finished(s), s.waiting, s.answers.Keys, s.got.Keys);
    assert next.answers.Keys == s.answers.Keys - {s.waiting[thread]};
    assert next.got.Keys == s.got.Keys + {s.waiting[thread]};
  }

  /** Whatever step is taken, the invariant is kept. */
  lemma {:induction false} StepKeeps(s: State, ev: Event, next: State)
    requires Inv(s) && Apply(s, ev) == Some(next)
    ensures Inv(next) && next.engine == s.engine
  {
    hide Resume, Serial, Eval, Right, EachOnce, Serially;
    match ev
    case Run(thread, code) => SendKeeps(s, thread, code, next);
    case Take => TakeKeeps(s, next);
    case Work => WorkKeeps(s);
    case Receive(thread) => ReceiveKeeps(s, thread, next);
    case Clone => HandleKeeps(s, ev, next);
    case DropHandle => HandleKeeps(s, ev, next);
    case Stop => HandleKeeps(s, ev, next);
  }

  lemma {:induction false} RunKeeps(s: State, evs: seq<Event>, end: State)
    requires Inv(s) && Runs(s, evs) == Some(end)
    ensures Inv(end) && end.engine == s.engine
    decreases |evs|
  {
    if evs != [] {
      hide Inv, Apply;
      var next := Apply(s, evs[0]).value;
      StepKeeps(s, evs[0], next);
      RunKeeps(next, evs[1..], end);
    }
  }

  // --- the theorems --------------------------------------------------------------------

  /** Over every run the engine answers as if it alone ran the jobs one after another in
      the order sent, the calls each makes inside it: each caller is answered its own job's
      answer, each call the engine made of itself was answered what the serial one is, and a
      panic costs only its own call its answer. */
  lemma {:induction false} Linearizable(engine: Thread, evs: seq<Event>, s: State)
    requires Runs(Started(engine), evs) == Some(s)
    ensures Inv(s)
    ensures forall j :: j in s.got ==> j < |s.sent| && s.got[j] == SerialRun(s.sent, j).outcome
    ensures s.code.None? ==> s.log == Serial(s.sent[..s.taken])
    ensures s.code.Some? ==> Resume(s.code.value, s.outer, s.log) == SerialRun(s.sent, s.taken - 1)
    ensures engine !in s.callers
  {
    assert Inv(Started(engine));
    RunKeeps(Started(engine), evs, s);
  }

  /** The engine thread ends owing no answer: each job sent was answered to its caller. */
  lemma {:induction false} StopsOwingNothing(engine: Thread, evs: seq<Event>, s: State)
    requires Runs(Started(engine), evs) == Some(s) && !s.up
    ensures s.waiting == map[] && !s.owned
    ensures forall j :: 0 <= j < |s.sent| <==> j in s.got
  {
    Linearizable(engine, evs, s);
    forall j | 0 <= j < |s.callers| ensures j in s.got {
      assert Waits(s.callers, s.waiting, j) == (j !in s.got.Keys);
    }
  }

  function Clones(evs: seq<Event>): nat {
    if evs == [] then 0 else (if evs[0].Clone? then 1 else 0) + Clones(evs[1..])
  }

  function Drops(evs: seq<Event>): nat {
    if evs == [] then 0 else (if evs[0].DropHandle? then 1 else 0) + Drops(evs[1..])
  }

  /** The handles on the queue are those cloned and not dropped. */
  lemma {:induction false} HandlesCounted(s: State, evs: seq<Event>, end: State)
    requires Runs(s, evs) == Some(end)
    ensures end.handles == s.handles + Clones(evs) - Drops(evs)
    decreases |evs|
  {
    if evs != [] {
      var next := Apply(s, evs[0]).value;
      assert next.handles == s.handles + Clones([evs[0]]) - Drops([evs[0]]) by { assert [evs[0]][1..] == []; }
      HandlesCounted(next, evs[1..], end);
      assert [evs[0]][1..] == [];
    }
  }

  /** Once nobody waits and the queue is empty, dropping every handle is all it takes for the
      engine's thread to end, with the engine let go. */
  lemma {:induction false} EndsWhenLetGo(s: State) returns (evs: seq<Event>)
    requires s.up && s.waiting == map[] && s.code.None? && s.taken == |s.sent|
    ensures Runs(s, evs).Some? && !Runs(s, evs).value.up && !Runs(s, evs).value.owned
    ensures |evs| == s.handles + 1 && forall ev :: ev in evs ==> ev.DropHandle? || ev.Stop?
    decreases s.handles
  {
    if s.handles == 0 {
      evs := [Stop];
      assert evs[1..] == [];
    } else {
      var next := Apply(s, DropHandle).value;
      var rest := EndsWhenLetGo(next);
      evs := [DropHandle] + rest;
      assert evs[1..] == rest;
    }
  }

  // --- nobody waits for ever -------------------------------------------------------------

  /** Steps left in a piece of code at most. */
  function Size(code: Code): nat {
    match code
    case Return => 1
    case Panic => 1
    case Touch(_, next) => 1 + Size(next)
    case Call(inner, answered, gone) => 1 + Size(inner) + Size(answered) + Size(gone)
  }

  function Sizes(codes: seq<Code>): nat {
    if codes == [] then 0 else Size(codes[0]) + 1 + Sizes(codes[1..])
  }

  function FrameSizes(outer: seq<Frame>): nat {
    if outer == [] then 0
    else
      var last := |outer| - 1;
      FrameSizes(outer[..last]) + Size(outer[last].answered) + Size(outer[last].gone)
  }

  /** What the engine and its callers have yet to do if nothing more is sent. */
  function Left(s: State): nat
    requires s.taken <= |s.sent|
  {
    Sizes(s.sent[s.taken..]) + (if s.code.Some? then Size(s.code.value) else 0) + FrameSizes(s.outer) + |s.waiting|
  }

  predicate Serves(ev: Event) { ev.Work? || ev.Take? || ev.Receive? }

  /** While somebody waits, the engine thread or a caller can step. */
  lemma {:induction false} Progress(s: State) returns (ev: Event)
    requires Inv(s) && s.waiting != map[]
    ensures Serves(ev) && Apply(s, ev).Some?
  {
    if s.code.Some? { return Work; }
    if s.taken < |s.sent| { return Take; }
    var c :| c in s.waiting;
    assert Waits(s.callers, s.waiting, s.waiting[c]);
    return Receive(c);
  }

  lemma FramesGrow(outer: seq<Frame>, frame: Frame)
    ensures FrameSizes(outer + [frame]) == FrameSizes(outer) + Size(frame.answered) + Size(frame.gone)
  {
    assert (outer + [frame])[..|outer|] == outer;
  }

  lemma {:induction false} WorkLessens(s: State)
    requires s.code.Some? && s.owned && 0 < s.taken <= |s.sent|
    ensures Left(Worked(s)) < Left(s)
  {
    hide Sizes;
    match s.code.value
    case Call(_, answered, gone) =>
      hide FrameSizes;
      FramesGrow(s.outer, Frame(answered, gone));
    case Touch(_, _) =>
    case Return =>
    case Panic =>
  }

  lemma {:induction false} TakeLessens(s: State, next: State)
    requires s.taken <= |s.sent| && s.code.None? && s.outer == [] && Apply(s, Take) == Some(next)
    ensures next.taken <= |next.sent| && Left(next) < Left(s)
  {
    hide Size, FrameSizes;
    assert s.sent[s.taken..][1..] == s.sent[s.taken + 1..];
  }

  lemma {:induction false} ReceiveLessens(s: State, thread: Thread, next: State)
    requires s.taken <= |s.sent| && Apply(s, Receive(thread)) == Some(next)
    ensures next.taken <= |next.sent| && Left(next) < Left(s)
  {
    hide Size, Sizes, FrameSizes;
    assert |s.waiting - {thread}| == |s.waiting| - 1 by {
      assert (s.waiting - {thread}).Keys == s.waiting.Keys - {thread};
    }
  }

  lemma {:induction false} ServingLessens(s: State, ev: Event, next: State)
    requires Inv(s) && Serves(ev) && Apply(s, ev) == Some(next)
    ensures next.taken <= |next.sent| && Left(next) < Left(s)
  {
    assert s.taken <= |s.sent| && (s.code.None? ==> s.outer == []) && (s.code.Some? ==> s.owned && s.taken > 0);
    hide Inv, Left;
    if ev.Work? {
      assert next == Worked(s);
      WorkLessens(s);
      WorkLeavesAlone(s);
    } else if ev.Take? {
      TakeLessens(s, next);
    } else {
      ReceiveLessens(s, ev.thread, next);
    }
  }

  /** If nothing more is sent, every run comes to its end... */
  lemma {:induction false} ServingEnds(s: State, evs: seq<Event>, end: State)
    requires Inv(s) && Runs(s, evs) == Some(end) && forall ev :: ev in evs ==> Serves(ev)
    ensures |evs| <= Left(s)
    decreases |evs|
  {
    if evs != [] {
      var next := Apply(s, evs[0]).value;
      StepKeeps(s, evs[0], next);
      ServingLessens(s, evs[0], next);
      ServingEnds(next, evs[1..], end);
    }
  }

  /** ... and where it can end, every job sent was answered to its caller, serially. */
  lemma {:induction false} EndedMeansAnswered(s: State)
    requires Inv(s) && forall ev :: Serves(ev) ==> Apply(s, ev).None?
    ensures s.waiting == map[]
    ensures forall j :: 0 <= j < |s.sent| ==> j in s.got && s.got[j] == SerialRun(s.sent, j).outcome
  {
    if s.waiting != map[] {
      var ev := Progress(s);
      assert false;
    }
    forall j | 0 <= j < |s.sent| ensures j in s.got {
      assert Waits(s.callers, s.waiting, j) == (j !in s.got.Keys);
    }
  }
}
