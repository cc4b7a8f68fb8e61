/** A bridge's libraries: listed without running anything, opened by the engine, and closed
    by the stamp they were listed under. */
module Libraries {
  import opened Texts

  type Handle = nat

  datatype Found =
    | Library(id: Text, stamp: Text, version: Option<Text>, kinds: seq<Text>)
    | Broken(id: Text, stamp: Text)

  datatype Candidate = Candidate(id: Text, version: Text, kinds: seq<Text>, stamp: Text)

  datatype Listing = Listing(id: Text, stamp: Text)

  datatype Opening = Opening(id: Text, stamp: Text, library: Handle)

  datatype Opened = Built(library: Handle) | Described(library: Handle)

  datatype Refusal = NotListed | BrokenManifest | NoVersion | EngineRefused | NoTables

  datatype Result = Ok(library: Handle) | Err(why: Refusal)

  /** The i-th listing is the first of id. */
  predicate ListsFirst(listed: seq<Listing>, id: Text, i: nat) {
    i < |listed| && listed[i].id == id && forall k :: 0 <= k < i ==> listed[k].id != id
  }

  predicate Lists(listed: seq<Listing>, id: Text) {
    exists i :: 0 <= i < |listed| && listed[i].id == id
  }

  /** The stamp of the first listing of id; stamp itself when no listing is of id. */
  function StampOf(listed: seq<Listing>, id: Text, stamp: Text): (r: Text)
    ensures forall i: nat :: ListsFirst(listed, id, i) ==> r == listed[i].stamp
    ensures !Lists(listed, id) ==> r == stamp
  {
    if listed == [] then stamp
    else if listed[0].id == id then listed[0].stamp
    else
      assert forall i: nat :: ListsFirst(listed, id, i) ==> i > 0 && ListsFirst(listed[1..], id, i - 1);
      assert forall i :: 0 < i < |listed| ==> listed[i] == listed[1..][i - 1];
      StampOf(listed[1..], id, stamp)
  }

  /** The first library opened of id, under stamp; |open| when there is none. */
  function Position(open: seq<Opening>, id: Text, stamp: Text): (at: nat)
    ensures at <= |open|
    ensures at < |open| ==> open[at].id == id && open[at].stamp == stamp
    ensures forall k :: 0 <= k < at ==> open[k].id != id || open[k].stamp != stamp
  {
    if open == [] || (open[0].id == id && open[0].stamp == stamp) then 0
    else
      var rest := Position(open[1..], id, stamp);
      assert forall k :: 0 < k < |open| ==> open[k] == open[1..][k - 1];
      rest + 1
  }

  /** The first found of id; |found| when there is none. */
  function FirstOf(found: seq<Found>, id: Text): (at: nat)
    ensures at <= |found|
    ensures at < |found| ==> found[at].id == id
    ensures forall k :: 0 <= k < at ==> found[k].id != id
  {
    if found == [] || found[0].id == id then 0 else 1 + FirstOf(found[1..], id)
  }

  /** A candidate of what was found; one whose version cannot be read serves nothing. */
  function CandidateOf(found: Found, read: Option<Text>): Candidate {
    if found.Library? && (found.version.Some? || read.Some?)
    then Candidate(found.id, if found.version.Some? then found.version.value else read.value, found.kinds, found.stamp)
    else Candidate(found.id, [], [], found.stamp)
  }

  class BridgeSource {
    var listed: seq<Listing>
    var open: seq<Opening>

    constructor ()
      ensures listed == [] && open == []
    {
      listed, open := [], [];
    }

    /** versionOf is what the engine makes of a library's code when its manifest has no version. */
    method List(found: seq<Found>, versionOf: Found -> Option<Text>) returns (candidates: seq<Candidate>)
      modifies this`listed
      ensures |candidates| == |found| == |listed|
      ensures forall i :: 0 <= i < |found| ==> candidates[i].id == found[i].id && candidates[i].stamp == found[i].stamp
      ensures forall i :: 0 <= i < |found| ==>
        (found[i].Library? && (found[i].version.Some? || versionOf(found[i]).Some?) ==>
        && candidates[i].kinds == found[i].kinds
        && (if found[i].version.Some? then found[i].version else versionOf(found[i])) == Some(candidates[i].version))
      ensures forall i :: 0 <= i < |found| ==>
        (found[i].Broken? || (found[i].version.None? && versionOf(found[i]).None?) ==>
        candidates[i].kinds == [] && candidates[i].version == [])
      ensures forall i :: 0 <= i < |found| ==> listed[i] == Listing(found[i].id, found[i].stamp)
    {
      candidates := [];
      var stamps := [];
      for i := 0 to |found|
        invariant |candidates| == |stamps| == i
        invariant forall k :: 0 <= k < i ==> candidates[k] == CandidateOf(found[k], versionOf(found[k]))
        invariant forall k :: 0 <= k < i ==> stamps[k] == Listing(found[k].id, found[k].stamp)
      {
        candidates := candidates + [CandidateOf(found[i], versionOf(found[i]))];
        stamps := stamps + [Listing(candidates[i].id, candidates[i].stamp)];
      }
      listed := stamps;
    }

    /** One opening joins the others, under the listing's stamp rather than the caller's whenever
        there is a listing. */
    method Record(id: Text, stamp: Text, library: Handle)
      modifies this`open
      ensures |open| == |old(open)| + 1 && open[..|old(open)|] == old(open)
      ensures var o := open[|old(open)|];
        && o.id == id && o.library == library
        && (forall i: nat :: ListsFirst(listed, id, i) ==> o.stamp == listed[i].stamp)
        && (!Lists(listed, id) ==> o.stamp == stamp)
    {
      var at := stamp;
      var i := 0;
      while i < |listed| && listed[i].id != id
        invariant 0 <= i <= |listed| && forall k :: 0 <= k < i ==> listed[k].id != id
      {
        i := i + 1;
      }
      if i < |listed| { at := listed[i].stamp; }
      open := open + [Opening(id, at, library)];
    }

    /** Opens id: the engine opens it, and one whose tables are refused it closes at once. */
    method Open(found: seq<Found>, id: Text, versionOf: Found -> Option<Text>, engine: Option<Opened>, tables: bool)
      returns (r: Result, closed: Option<Handle>)
      modifies this`open
      ensures var at := FirstOf(found, id);
        && (r.Ok? <==>
          && at < |found| && found[at].Library? && (found[at].version.Some? || versionOf(found[at]).Some?)
          && engine.Some? && (engine.value.Built? || tables))
        && (r.Ok? ==> r.library == engine.value.library)
        && (r == Err(NotListed) <==> at == |found|)
        && (r.Ok? ==>
          && |open| == |old(open)| + 1 && open[..|old(open)|] == old(open)
          && var o := open[|old(open)|];
          && o.id == id && o.library == r.library
          && (forall i: nat :: ListsFirst(listed, id, i) ==> o.stamp == listed[i].stamp)
          && (!Lists(listed, id) ==> o.stamp == found[at].stamp))
      ensures r.Err? ==> open == old(open)
      ensures r == Err(NoTables) ==> engine.Some? && engine.value.Described? && !tables
      ensures closed == if r == Err(NoTables) then Some(engine.value.library) else None
    {
      closed := None;
      var i := 0;
      while i < |found| && found[i].id != id
        invariant 0 <= i <= |found| && FirstOf(found, id) == i + FirstOf(found[i..], id)
      {
        i := i + 1;
      }
      if i == |found| { return Err(NotListed), None; }
      var manifest := found[i];
      if manifest.Broken? { return Err(BrokenManifest), None; }
      if manifest.version.None? && versionOf(manifest).None? { return Err(NoVersion), None; }
      if engine.None? { return Err(EngineRefused), None; }
      if engine.value.Described? && !tables { return Err(NoTables), Some(engine.value.library); }
      Record(id, manifest.stamp, engine.value.library);
      r := Ok(engine.value.library);
    }

    /** Lets the first library go that was opened of id under stamp, if there is one. */
    method Close(id: Text, stamp: Text) returns (closed: Option<Handle>)
      modifies this`open
      ensures var at := Position(old(open), id, stamp);
        if at < |old(open)|
        then closed == Some(old(open)[at].library) && open == old(open)[..at] + old(open)[at + 1..]
        else closed == None && open == old(open)
    {
      var at := 0;
      while at < |open| && (open[at].id != id || open[at].stamp != stamp)
        invariant 0 <= at <= |open| && Position(open, id, stamp) == at + Position(open[at..], id, stamp)
      {
        at := at + 1;
      }
      if at == |open| { return None; }
      closed := Some(open[at].library);
      open := open[..at] + open[at + 1..];
    }
  }

  // --- lists, opens and closes interleaved -------------------------------------------------

  /** built counts what the engine opened and names each by its turn. Between the engine's
      answer and its record a library is opening; between leaving open and the engine's
      hearing of it, closing. */
  datatype State = State(
    listed: seq<Listing>,
    built: nat,
    opening: map<Handle, Listing>,
    open: seq<Opening>,
    closing: set<Handle>,
    closed: seq<Handle>)

  datatype Event =
    | List(listed: seq<Listing>)
    | EngineOpens(manifest: Listing)
    | Refuse(library: Handle)
    | Record(library: Handle)
    | Take(id: Text, stamp: Text)
    | Close(library: Handle)

  const STARTED: State := State([], 0, map[], [], {}, [])

  function Apply(s: State, ev: Event): Option<State> {
    match ev
    case List(listed) => Some(s.(listed := listed))
    case EngineOpens(manifest) => Some(s.(built := s.built + 1, opening := s.opening[s.built := manifest]))
    case Refuse(library) =>
      if library in s.opening
      then Some(s.(opening := s.opening - {library}, closed := s.closed + [library])) else None
    case Record(library) =>
      if library in s.opening then
        var m := s.opening[library];
        Some(s.(opening := s.opening - {library},
                open := s.open + [Opening(m.id, StampOf(s.listed, m.id, m.stamp), library)]))
      else None
    case Take(id, stamp) =>
      var at := Position(s.open, id, stamp);
      if at < |s.open|
      then Some(s.(open := s.open[..at] + s.open[at + 1..], closing := s.closing + {s.open[at].library}))
      else Some(s)
    case Close(library) =>
      if library in s.closing
      then Some(s.(closing := s.closing - {library}, closed := s.closed + [library])) else None
  }

  function Run(s: State, evs: seq<Event>): Option<State>
    decreases |evs|
  {
    if evs == [] then Some(s)
    else match Apply(s, evs[0])
      case None => None
      case Some(next) => Run(next, evs[1..])
  }

  ghost function Handles(open: seq<Opening>): (r: seq<Handle>)
    ensures |r| == |open| && forall i :: 0 <= i < |open| ==> r[i] == open[i].library
  {
    seq(|open|, i requires 0 <= i < |open| => open[i].library)
  }

  /** In which of its four stages a library is. */
  ghost function Stages(s: State, h: Handle): nat {
    (if h in s.opening then 1 else 0) + multiset(Handles(s.open))[h]
    + (if h in s.closing then 1 else 0) + multiset(s.closed)[h]
  }

  ghost predicate Inv(s: State) {
    forall h: Handle :: Stages(s, h) == if h < s.built then 1 else 0
  }

  lemma HandlesLess(open: seq<Opening>, at: nat)
    requires at < |open|
    ensures multiset(Handles(open)) == multiset(Handles(open[..at] + open[at + 1..])) + multiset{open[at].library}
  {
    var all := Handles(open);
    assert Handles(open[..at] + open[at + 1..]) == all[..at] + all[at + 1..];
    assert all == all[..at] + [all[at]] + all[at + 1..];
  }

  lemma {:induction false} StepKeeps(s: State, ev: Event, next: State)
    requires Inv(s) && Apply(s, ev) == Some(next)
    ensures Inv(next)
  {
    if ev.Take? {
      var at := Position(s.open, ev.id, ev.stamp);
      if at < |s.open| { HandlesLess(s.open, at); }
    }
    if ev.Record? {
      assert Handles(next.open) == Handles(s.open) + [ev.library];
    }
    forall h: Handle ensures Stages(next, h) == if h < next.built then 1 else 0 {
      assert Stages(s, h) == if h < s.built then 1 else 0;
    }
  }

  lemma {:induction false} RunKeeps(s: State, evs: seq<Event>, end: State)
    requires Inv(s) && Run(s, evs) == Some(end)
    ensures Inv(end)
    decreases |evs|
  {
    if evs != [] {
      var next := Apply(s, evs[0]).value;
      StepKeeps(s, evs[0], next);
      RunKeeps(next, evs[1..], end);
    }
  }

  /** Over every run each library the engine opened is closed at most once; those not
      closed, and not on their way in or out, are exactly those open, each once. */
  lemma {:induction false} ClosedOnce(evs: seq<Event>, s: State)
    requires Run(STARTED, evs) == Some(s)
    ensures Inv(s)
    ensures forall h: Handle :: multiset(s.closed)[h] <= 1
    ensures forall h: Handle :: h < s.built && h !in s.opening && h !in s.closing ==>
      (multiset(s.closed)[h] == 0 <==> h in Handles(s.open))
  {
    RunKeeps(STARTED, evs, s);
    forall h: Handle ensures multiset(s.closed)[h] <= 1
      && (h < s.built && h !in s.opening && h !in s.closing ==> (multiset(s.closed)[h] == 0 <==> h in Handles(s.open)))
    {
      assert Stages(s, h) == if h < s.built then 1 else 0;
      assert h in Handles(s.open) <==> h in multiset(Handles(s.open));
    }
  }

  /** A library recorded under a stamp stays open until a close by that stamp takes it; a
      manifest changed since it was listed changes nothing of that. */
  lemma {:induction false} StaysUntilTaken(s: State, evs: seq<Event>, end: State, o: Opening)
    requires Run(s, evs) == Some(end) && o in s.open && Take(o.id, o.stamp) !in evs
    ensures o in end.open
    decreases |evs|
  {
    if evs != [] {
      var next := Apply(s, evs[0]).value;
      assert evs == [evs[0]] + evs[1..];
      assert o in next.open by {
        if evs[0].Take? {
          var at := Position(s.open, evs[0].id, evs[0].stamp);
          if at < |s.open| {
            assert s.open == s.open[..at] + [s.open[at]] + s.open[at + 1..];
          }
        }
      }
      StaysUntilTaken(next, evs[1..], end, o);
    }
  }

  /** What is listed is what the last list found, whatever is opened and closed since. */
  lemma {:induction false} ListedStays(s: State, listed: seq<Listing>, evs: seq<Event>, end: State)
    requires Run(s, [List(listed)] + evs) == Some(end) && forall ev :: ev in evs ==> !ev.List?
    ensures end.listed == listed
    decreases |evs|
  {
    var all, next := [List(listed)] + evs, Apply(s, List(listed)).value;
    assert all[0] == List(listed) && all[1..] == evs;
    ListedUnchanged(next, evs, end);
  }

  lemma {:induction false} ListedUnchanged(s: State, evs: seq<Event>, end: State)
    requires Run(s, evs) == Some(end) && forall ev :: ev in evs ==> !ev.List?
    ensures end.listed == s.listed
    decreases |evs|
  {
    if evs != [] {
      assert evs[0] in evs;
      ListedUnchanged(Apply(s, evs[0]).value, evs[1..], end);
    }
  }

  /** No library is stuck: one the engine opened is closed, or is open, or there is a step that
      takes it in, back or out. */
  lemma {:induction false} NoneStuck(s: State, h: Handle)
    requires Inv(s) && h < s.built && h !in s.closed && h !in Handles(s.open)
    ensures h in s.opening ==>
      && Apply(s, Record(h)).Some? && h in Handles(Apply(s, Record(h)).value.open)
      && Apply(s, Refuse(h)).Some? && h in Apply(s, Refuse(h)).value.closed
    ensures h !in s.opening ==> Apply(s, Close(h)).Some? && h in Apply(s, Close(h)).value.closed
  {
    assert Stages(s, h) == 1;
    assert multiset(Handles(s.open))[h] == 0 && multiset(s.closed)[h] == 0;
    if h in s.opening {
      var next := Apply(s, Record(h)).value;
      assert Handles(next.open)[|s.open|] == h;
    }
  }

  lemma {:induction false} CloseTakesIt(s: State, library: Handle, o: Opening, evs: seq<Event>, end: State)
    requires Run(s, [Record(library)] + evs) == Some(end) && Take(o.id, o.stamp) !in evs
    requires library in s.opening && o.library == library && o.id == s.opening[library].id
    requires o.stamp == StampOf(s.listed, o.id, s.opening[library].stamp)
    requires forall p :: p in end.open && p.id == o.id && p.stamp == o.stamp ==> p.library == library
    ensures Apply(end, Take(o.id, o.stamp)).value.closing == end.closing + {library}
  {
    var next, all := Apply(s, Record(library)).value, [Record(library)] + evs;
    assert all[0] == Record(library) && all[1..] == evs;
    assert next.open[|next.open| - 1] == o;
    StaysUntilTaken(next, evs, end, o);
    var at := Position(end.open, o.id, o.stamp);
    assert at < |end.open|;
  }

  /** Opened while the first listing of its id, the i-th, has a stamp, whatever stamp its
      manifest has by then, a library is let go by the first close that names id and the
      listed stamp, when it is the only one open so. */
  lemma {:induction false} CloseFindsIt(s: State, library: Handle, stamp: Text, i: nat, evs: seq<Event>, end: State)
    requires library in s.opening && Run(s, [Record(library)] + evs) == Some(end)
    requires var m := s.opening[library];
      && i < |s.listed| && s.listed[i] == Listing(m.id, stamp) && (forall k :: 0 <= k < i ==> s.listed[k].id != m.id)
      && Take(m.id, stamp) !in evs
      && forall o :: o in end.open && o.id == m.id && o.stamp == stamp ==> o.library == library
    ensures Apply(end, Take(s.opening[library].id, stamp)).value.closing == end.closing + {library}
  {
    assert ListsFirst(s.listed, s.opening[library].id, i);
    CloseTakesIt(s, library, Opening(s.opening[library].id, stamp, library), evs, end);
  }

  /** Opened while its id is not listed, it is let go by a close that names its manifest's
      stamp. */
  lemma {:induction false} CloseFindsUnlisted(s: State, library: Handle, evs: seq<Event>, end: State)
    requires library in s.opening && Run(s, [Record(library)] + evs) == Some(end)
    requires var m := s.opening[library];
      && (forall k :: 0 <= k < |s.listed| ==> s.listed[k].id != m.id)
      && Take(m.id, m.stamp) !in evs
      && forall o :: o in end.open && o.id == m.id && o.stamp == m.stamp ==> o.library == library
    ensures var m := s.opening[library];
      Apply(end, Take(m.id, m.stamp)).value.closing == end.closing + {library}
  {
    var m := s.opening[library];
    CloseTakesIt(s, library, Opening(m.id, m.stamp, library), evs, end);
  }
}
