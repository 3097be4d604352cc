/** The deep check: bounded concurrent probes whose passing ports become the gold pool. */
module GoldPool {
  import opened Counting
  import opened Options

  const LIMIT := 50

  /** A probe goroutine: probing, about to append its port, about to give its slot
      back, about to leave the wait group, gone. */
  datatype Stage = Probing | Appending | Releasing(passed: bool) | Leaving(passed: bool) | Gone(passed: bool)

  datatype Job = Job(port: int, stage: Stage)

  /** One sweep over a snapshot of tunnel ports: `answers` holds the answers so far to
      "is it Running?", `waiting` a port that passed but has no slot yet. */
  datatype Sweep = Sweep(tunnels: seq<int>, answers: seq<bool>, waiting: Option<int>, jobs: seq<Job>, slots: nat,
                         gold: seq<int>, published: bool)

  datatype Step = Read(running: bool) | Acquire | Probe(k: nat, passed: bool) | Append(k: nat) | Release(k: nat)
                | Finish(k: nat) | Publish

  predicate At(s: Sweep, k: nat, stage: Stage) {
    k < |s.jobs| && s.jobs[k].stage == stage
  }

  predicate Enabled(s: Sweep, step: Step) {
    match step
    case Read(_) => |s.answers| < |s.tunnels| && s.waiting.None?
    case Acquire => s.waiting.Some? && s.slots < LIMIT
    case Probe(k, _) => At(s, k, Probing)
    case Append(k) => At(s, k, Appending)
    case Release(k) => k < |s.jobs| && s.jobs[k].stage.Releasing? && s.slots > 0
    case Finish(k) => k < |s.jobs| && s.jobs[k].stage.Leaving?
    case Publish =>
      && |s.answers| == |s.tunnels| && s.waiting.None? && !s.published
      && forall j <- s.jobs :: j.stage.Gone?
  }

  function Move(s: Sweep, k: nat, stage: Stage): seq<Job>
    requires k < |s.jobs|
  {
    s.jobs[k := s.jobs[k].(stage := stage)]
  }

  function Apply(s: Sweep, step: Step): Sweep
    requires Enabled(s, step)
  {
    match step
    case Read(running) =>
      s.(answers := s.answers + [running], waiting := if running then Some(s.tunnels[|s.answers|]) else None)
    case Acquire => s.(waiting := None, slots := s.slots + 1, jobs := s.jobs + [Job(s.waiting.value, Probing)])
    case Probe(k, passed) => s.(jobs := Move(s, k, if passed then Appending else Releasing(false)))
    case Append(k) => s.(jobs := Move(s, k, Releasing(true)), gold := s.gold + [s.jobs[k].port])
    case Release(k) => s.(jobs := Move(s, k, Leaving(s.jobs[k].stage.passed)), slots := s.slots - 1)
    case Finish(k) => s.(jobs := Move(s, k, Gone(s.jobs[k].stage.passed)))
    case Publish => s.(published := true)
  }

  // Sums over jobs

  function Sum(jobs: seq<Job>, w: Job -> nat): nat {
    if jobs == [] then 0 else Sum(jobs[..|jobs| - 1], w) + w(jobs[|jobs| - 1])
  }

  lemma {:induction false} SumMove(jobs: seq<Job>, w: Job -> nat, k: nat, j: Job)
    requires k < |jobs|
    ensures Sum(jobs[k := j], w) == Sum(jobs, w) - w(jobs[k]) + w(j)
    ensures w(jobs[k]) <= Sum(jobs, w)
  {
    var n := |jobs| - 1;
    if k == n {
      assert jobs[k := j][..n] == jobs[..n];
    } else {
      SumMove(jobs[..n], w, k, j);
      assert jobs[k := j][..n] == jobs[..n][k := j];
    }
  }

  lemma SumAppend(jobs: seq<Job>, w: Job -> nat, j: Job)
    ensures Sum(jobs + [j], w) == Sum(jobs, w) + w(j)
  {
    assert (jobs + [j])[..|jobs|] == jobs;
  }

  lemma {:induction false} SumPositive(jobs: seq<Job>, w: Job -> nat)
    requires Sum(jobs, w) > 0
    ensures exists k :: 0 <= k < |jobs| && w(jobs[k]) > 0
  {
    var n := |jobs| - 1;
    if w(jobs[n]) == 0 {
      SumPositive(jobs[..n], w);
      var k :| 0 <= k < n && w(jobs[..n][k]) > 0;
      assert w(jobs[k]) > 0;
    }
  }

  function HoldsSlot(j: Job): nat {
    if j.stage.Probing? || j.stage.Appending? || j.stage.Releasing? then 1 else 0
  }

  function Remaining(j: Job): nat {
    match j.stage case Probing => 4 case Appending => 3 case Releasing(_) => 2 case Leaving(_) => 1 case Gone(_) => 0
  }

  /** Whether the job has passed, has recorded it, and is for port p. */
  predicate RecordedFor(j: Job, p: int) {
    j.port == p && (j.stage.Releasing? || j.stage.Leaving? || j.stage.Gone?) && j.stage.passed
  }

  function Mark(j: Job, p: int): nat {
    if RecordedFor(j, p) then 1 else 0
  }

  /** How many jobs for port p have passed and recorded it. */
  function Recorded(jobs: seq<Job>, p: int): nat {
    Sum(jobs, (j: Job) => Mark(j, p))
  }

  /** The ports read as Running, in list order. */
  function Chosen(tunnels: seq<int>, answers: seq<bool>): seq<int>
    requires |answers| <= |tunnels|
  {
    if answers == [] then []
    else
      var n := |answers| - 1;
      Chosen(tunnels, answers[..n]) + if answers[n] then [tunnels[n]] else []
  }

  function Ports(jobs: seq<Job>): seq<int> {
    seq(|jobs|, i requires 0 <= i < |jobs| => jobs[i].port)
  }

  ghost predicate Inv(s: Sweep) {
    && |s.answers| <= |s.tunnels|
    && s.slots == Sum(s.jobs, HoldsSlot) && s.slots <= LIMIT
    && (forall p :: multiset(s.gold)[p] == Recorded(s.jobs, p))
    && Ports(s.jobs) + (if s.waiting.Some? then [s.waiting.value] else []) == Chosen(s.tunnels, s.answers)
    && (s.published ==> Enabled(s.(published := false), Publish))
  }

  function NewSweep(tunnels: seq<int>): Sweep {
    Sweep(tunnels, [], None, [], 0, [], false)
  }

  lemma SlotsMove(s: Sweep, k: nat, st: Stage)
    requires Inv(s) && k < |s.jobs|
    ensures var j' := s.jobs[k].(stage := st);
            Sum(Move(s, k, st), HoldsSlot) == s.slots - HoldsSlot(s.jobs[k]) + HoldsSlot(j')
    ensures HoldsSlot(s.jobs[k]) <= s.slots && Ports(Move(s, k, st)) == Ports(s.jobs)
    ensures !s.jobs[k].stage.Gone? ==> !s.published
  {
    SumMove(s.jobs, HoldsSlot, k, s.jobs[k].(stage := st));
    assert s.jobs[k] in s.jobs;
  }

  lemma GoldMove(s: Sweep, k: nat, st: Stage, p: int)
    requires Inv(s) && k < |s.jobs|
    ensures Recorded(Move(s, k, st), p) + Mark(s.jobs[k], p)
            == multiset(s.gold)[p] + Mark(s.jobs[k].(stage := st), p)
  {
    SumMove(s.jobs, (j: Job) => Mark(j, p), k, s.jobs[k].(stage := st));
  }

  lemma MoveKeeps(s: Sweep, step: Step, k: nat, st: Stage)
    requires Inv(s) && Enabled(s, step) && k < |s.jobs| && !s.jobs[k].stage.Gone?
    requires Apply(s, step).(jobs := s.jobs, gold := s.gold, slots := s.slots) == s
    requires Apply(s, step).jobs == Move(s, k, st)
    requires Apply(s, step).slots == s.slots - HoldsSlot(s.jobs[k]) + HoldsSlot(s.jobs[k].(stage := st))
    requires Apply(s, step).slots <= LIMIT
    requires forall p :: multiset(Apply(s, step).gold)[p] + Mark(s.jobs[k], p)
                         == multiset(s.gold)[p] + Mark(s.jobs[k].(stage := st), p)
    ensures Inv(Apply(s, step))
  {
    var s' := Apply(s, step);
    SlotsMove(s, k, st);
    forall p
      ensures multiset(s'.gold)[p] == Recorded(s'.jobs, p)
    {
      GoldMove(s, k, st, p);
    }
  }

  lemma StepKeeps(s: Sweep, step: Step)
    requires Inv(s) && Enabled(s, step)
    ensures Inv(Apply(s, step))
  {
    var s' := Apply(s, step);
    match step
    case Read(running) =>
      assert s'.answers[..|s.answers|] == s.answers;
    case Acquire => AcquireKeeps(s);
    case Probe(k, passed) => MoveKeeps(s, step, k, if passed then Appending else Releasing(false));
    case Append(k) => AppendKeeps(s, k);
    case Release(k) => ReleaseKeeps(s, k);
    case Finish(k) => MoveKeeps(s, step, k, Gone(s.jobs[k].stage.passed));
    case Publish =>
  }

  lemma AppendKeeps(s: Sweep, k: nat)
    requires Inv(s) && Enabled(s, Append(k))
    ensures Inv(Apply(s, Append(k)))
  {
    MoveKeeps(s, Append(k), k, Releasing(true));
  }

  lemma ReleaseKeeps(s: Sweep, k: nat)
    requires Inv(s) && Enabled(s, Release(k))
    ensures Inv(Apply(s, Release(k)))
  {
    MoveKeeps(s, Release(k), k, Leaving(s.jobs[k].stage.passed));
  }

  lemma AcquireKeeps(s: Sweep)
    requires Inv(s) && Enabled(s, Acquire)
    ensures Inv(Apply(s, Acquire))
  {
    var s' := Apply(s, Acquire);
    var j := Job(s.waiting.value, Probing);
    SumAppend(s.jobs, HoldsSlot, j);
    forall p
      ensures multiset(s'.gold)[p] == Recorded(s'.jobs, p)
    {
      SumAppend(s.jobs, (j: Job) => Mark(j, p), j);
    }
    assert Ports(s'.jobs) == Ports(s.jobs) + [s.waiting.value];
  }

  // Main results about one sweep

  /** An upper bound on the steps a sweep still takes. */
  function Rank(s: Sweep): nat
    requires |s.answers| <= |s.tunnels|
  {
    6 * (|s.tunnels| - |s.answers|) + (if s.waiting.Some? then 5 else 0) + Sum(s.jobs, Remaining)
    + if s.published then 0 else 1
  }

  lemma RankDecreases(s: Sweep, step: Step)
    requires Inv(s) && Enabled(s, step)
    ensures |Apply(s, step).answers| <= |s.tunnels| && Rank(Apply(s, step)) < Rank(s)
  {
    var s' := Apply(s, step);
    match step
    case Read(_) =>
    case Acquire => SumAppend(s.jobs, Remaining, s'.jobs[|s.jobs|]);
    case Probe(k, _) => MoveRank(s, k, s'.jobs[k].stage);
    case Append(k) => MoveRank(s, k, s'.jobs[k].stage);
    case Release(k) => MoveRank(s, k, s'.jobs[k].stage);
    case Finish(k) => MoveRank(s, k, s'.jobs[k].stage);
    case Publish =>
  }

  lemma MoveRank(s: Sweep, k: nat, st: Stage)
    requires k < |s.jobs| && Remaining(s.jobs[k].(stage := st)) < Remaining(s.jobs[k])
    ensures Sum(Move(s, k, st), Remaining) < Sum(s.jobs, Remaining)
  {
    SumMove(s.jobs, Remaining, k, s.jobs[k].(stage := st));
  }

  /** Until it has published, a sweep can always take a step: the 50-slot semaphore and
      the wait group never block it for good. */
  lemma NeverStuck(s: Sweep)
    requires Inv(s) && !s.published
    ensures exists step :: Enabled(s, step)
  {
    if |s.answers| < |s.tunnels| && s.waiting.None? {
      assert Enabled(s, Read(true));
    } else if s.waiting.Some? && s.slots < LIMIT {
      assert Enabled(s, Acquire);
    } else if k :| 0 <= k < |s.jobs| && !s.jobs[k].stage.Gone? {
      JobCanMove(s, k);
    } else {
      if s.waiting.Some? {
        SumPositive(s.jobs, HoldsSlot);
        assert false;
      }
      assert Enabled(s, Publish);
    }
  }

  lemma JobCanMove(s: Sweep, k: nat)
    requires Inv(s) && k < |s.jobs| && !s.jobs[k].stage.Gone?
    ensures exists step :: Enabled(s, step)
  {
    SumMove(s.jobs, HoldsSlot, k, s.jobs[k]);
    match s.jobs[k].stage
    case Probing => assert Enabled(s, Probe(k, true));
    case Appending => assert Enabled(s, Append(k));
    case Releasing(_) => assert Enabled(s, Release(k));
    case Leaving(_) => assert Enabled(s, Finish(k));
  }

  /** The states of a sweep that takes these steps, each enabled in its turn. */
  ghost predicate Takes(s: Sweep, steps: seq<Step>)
    decreases |steps|
  {
    steps == [] || (Enabled(s, steps[0]) && Takes(Apply(s, steps[0]), steps[1..]))
  }

  function Last(s: Sweep, steps: seq<Step>): Sweep
    requires Takes(s, steps)
    decreases |steps|
  {
    if steps == [] then s else Last(Apply(s, steps[0]), steps[1..])
  }

  /** Every interleaving ends: no run of a sweep is longer than its rank, the invariant
      holds at its end, and a run that cannot be extended has published. */
  lemma {:induction false} EverySweepPublishes(s: Sweep, steps: seq<Step>)
    requires Inv(s) && Takes(s, steps)
    ensures |steps| <= Rank(s) && Inv(Last(s, steps)) && Last(s, steps).tunnels == s.tunnels
    ensures (forall step :: !Enabled(Last(s, steps), step)) ==> Last(s, steps).published
    decreases |steps|
  {
    if steps == [] {
      if !s.published {
        NeverStuck(s);
      }
    } else {
      StepKeeps(s, steps[0]);
      RankDecreases(s, steps[0]);
      EverySweepPublishes(Apply(s, steps[0]), steps[1..]);
    }
  }

  lemma {:induction false} SumCounts(jobs: seq<Job>, w: Job -> nat, at: set<nat>)
    requires forall k <- at :: k < |jobs| && w(jobs[k]) > 0
    ensures |at| <= Sum(jobs, w)
  {
    if jobs == [] {
      assert at == {};
    } else {
      var n := |jobs| - 1;
      SumCounts(jobs[..n], w, at - {n});
      assert at <= at - {n} + {n};
      SubsetSize(at, at - {n} + {n});
    }
  }

  /** In every state that any sweep reaches, at most 50 goroutines are probing, and a
      port waiting for its goroutine gets one exactly if fewer than 50 hold a slot. */
  lemma AtMostFiftyProbes(tunnels: seq<int>, steps: seq<Step>, probing: set<nat>)
    requires Takes(NewSweep(tunnels), steps)
    requires var jobs := Last(NewSweep(tunnels), steps).jobs;
             forall k <- probing :: k < |jobs| && jobs[k].stage == Probing
    ensures var s := Last(NewSweep(tunnels), steps);
            |probing| <= 50 && (Enabled(s, Acquire) <==> s.waiting.Some? && Sum(s.jobs, HoldsSlot) < 50)
  {
    NewSweepInv(tunnels);
    EverySweepPublishes(NewSweep(tunnels), steps);
    SumCounts(Last(NewSweep(tunnels), steps).jobs, HoldsSlot, probing);
  }

  // What a sweep publishes

  /** The answers given by the reads among these steps, in order. */
  function Answers(steps: seq<Step>): seq<bool> {
    if steps == [] then [] else (if steps[0].Read? then [steps[0].running] else []) + Answers(steps[1..])
  }

  lemma {:induction false} AnswersAreReads(s: Sweep, steps: seq<Step>)
    requires Takes(s, steps)
    ensures Last(s, steps).answers == s.answers + Answers(steps)
    decreases |steps|
  {
    if steps != [] {
      var s', rest := Apply(s, steps[0]), steps[1..];
      AnswersAreReads(s', rest);
      var first := if steps[0].Read? then [steps[0].running] else [];
      assert s'.answers == s.answers + first && Answers(steps) == first + Answers(rest);
      assert Last(s, steps) == Last(s', rest);
    }
  }

  predicate Decided(s: Sweep, k: nat, v: bool) {
    k < |s.jobs| && match s.jobs[k].stage
                    case Probing => false
                    case Appending => v
                    case Releasing(passed) => passed == v
                    case Leaving(passed) => passed == v
                    case Gone(passed) => passed == v
  }

  /** A job carries a verdict exactly if its probe returned it. */
  lemma {:induction false} ProbesDecide(s: Sweep, steps: seq<Step>, k: nat, v: bool)
    requires Takes(s, steps)
    ensures Decided(Last(s, steps), k, v) <==> Decided(s, k, v) || Probe(k, v) in steps
    decreases |steps|
  {
    if steps != [] {
      var s' := Apply(s, steps[0]);
      ProbesDecide(s', steps[1..], k, v);
      assert steps == [steps[0]] + steps[1..];
      assert Decided(s', k, v) <==> Decided(s, k, v) || steps[0] == Probe(k, v);
    }
  }

  lemma {:induction false} RecordedArePicked(jobs: seq<Job>, verdicts: seq<bool>, p: int)
    requires |jobs| == |verdicts|
    requires forall k :: 0 <= k < |jobs| ==> jobs[k].stage == Gone(verdicts[k])
    ensures multiset(Chosen(Ports(jobs), verdicts))[p] == Recorded(jobs, p)
  {
    if jobs != [] {
      var n := |jobs| - 1;
      RecordedArePicked(jobs[..n], verdicts[..n], p);
      ChosenPrefix(Ports(jobs), Ports(jobs[..n]), verdicts[..n]);
      var picked := Chosen(Ports(jobs[..n]), verdicts[..n]);
      assert Chosen(Ports(jobs), verdicts) == picked + if verdicts[n] then [jobs[n].port] else [];
      assert Recorded(jobs, p) == Recorded(jobs[..n], p) + Mark(jobs[n], p);
    }
  }

  lemma {:induction false} ChosenPrefix(tunnels: seq<int>, front: seq<int>, answers: seq<bool>)
    requires |answers| <= |front| && front <= tunnels
    ensures Chosen(tunnels, answers) == Chosen(front, answers)
  {
    if answers != [] {
      ChosenPrefix(tunnels, front, answers[..|answers| - 1]);
    }
  }

  lemma PublishedState(tunnels: seq<int>, steps: seq<Step>, s: Sweep)
    requires Takes(NewSweep(tunnels), steps) && s == Last(NewSweep(tunnels), steps) && s.published
    ensures Inv(s) && |Answers(steps)| == |tunnels| && (forall j <- s.jobs :: j.stage.Gone?)
    ensures Ports(s.jobs) == Chosen(tunnels, Answers(steps))
  {
    NewSweepInv(tunnels);
    EverySweepPublishes(NewSweep(tunnels), steps);
    AnswersAreReads(NewSweep(tunnels), steps);
    assert s.answers == Answers(steps) && Ports(s.jobs) + [] == Ports(s.jobs);
  }

  lemma GoldIsPicked(s: Sweep, verdicts: seq<bool>)
    requires Inv(s) && |s.jobs| == |verdicts|
    requires forall k :: 0 <= k < |s.jobs| ==> s.jobs[k].stage == Gone(verdicts[k])
    ensures multiset(s.gold) == multiset(Chosen(Ports(s.jobs), verdicts))
  {
    forall p
      ensures multiset(s.gold)[p] == multiset(Chosen(Ports(s.jobs), verdicts))[p]
    {
      RecordedArePicked(s.jobs, verdicts, p);
    }
  }

  /** However the goroutines interleave, every tunnel is read once, every tunnel read as
      Running is probed once, and what is published is a permutation of exactly the
      ports whose probe passed. */
  lemma PublishesThePassing(tunnels: seq<int>, steps: seq<Step>, verdicts: seq<bool>)
    requires Takes(NewSweep(tunnels), steps) && Last(NewSweep(tunnels), steps).published
    requires |verdicts| == |Last(NewSweep(tunnels), steps).jobs|
    requires forall k: nat :: k < |verdicts| ==> Probe(k, verdicts[k]) in steps
    ensures |Answers(steps)| == |tunnels| && |verdicts| == |Chosen(tunnels, Answers(steps))|
    ensures multiset(Last(NewSweep(tunnels), steps).gold)
            == multiset(Chosen(Chosen(tunnels, Answers(steps)), verdicts))
  {
    var s := Last(NewSweep(tunnels), steps);
    PublishedState(tunnels, steps, s);
    forall k: nat | k < |verdicts|
      ensures s.jobs[k].stage == Gone(verdicts[k])
    {
      ProbesDecide(NewSweep(tunnels), steps, k, verdicts[k]);
      assert s.jobs[k] in s.jobs;
    }
    GoldIsPicked(s, verdicts);
  }

  /** Each job of a published sweep has been probed, with one verdict. */
  lemma ProbedOnce(tunnels: seq<int>, steps: seq<Step>, k: nat)
    requires Takes(NewSweep(tunnels), steps) && Last(NewSweep(tunnels), steps).published
    requires k < |Last(NewSweep(tunnels), steps).jobs|
    ensures Probe(k, true) in steps <==> Probe(k, false) !in steps
  {
    PublishedState(tunnels, steps, Last(NewSweep(tunnels), steps));
    assert Last(NewSweep(tunnels), steps).jobs[k] in Last(NewSweep(tunnels), steps).jobs;
    ProbesDecide(NewSweep(tunnels), steps, k, true);
    ProbesDecide(NewSweep(tunnels), steps, k, false);
  }

  // Overlapping sweeps

  /** `order` lists the sweeps that have published, first to last. */
  datatype System = System(sweeps: seq<Sweep>, pool: seq<int>, order: seq<nat>)

  datatype Event = Begin(tunnels: seq<int>) | Of(i: nat, step: Step)

  function React(y: System, e: Event): System {
    match e
    case Begin(tunnels) => y.(sweeps := y.sweeps + [NewSweep(tunnels)])
    case Of(i, step) =>
      if i >= |y.sweeps| || !Enabled(y.sweeps[i], step) then y
      else
        var s := Apply(y.sweeps[i], step);
        var sweeps := y.sweeps[i := s];
        if step.Publish? then System(sweeps, s.gold, y.order + [i]) else y.(sweeps := sweeps)
  }

  function ReactAll(y: System, events: seq<Event>): System {
    if events == [] then y else React(ReactAll(y, events[..|events| - 1]), events[|events| - 1])
  }

  /** The sweeps in `order` are those that have published, each once, and the pool is
      the whole result of the last of them. */
  ghost predicate WholePool(y: System, initial: seq<int>) {
    && (forall k :: 0 <= k < |y.order| ==> y.order[k] < |y.sweeps|)
    && (forall i: nat :: i < |y.sweeps| ==> (y.sweeps[i].published <==> i in y.order))
    && (forall k, l :: 0 <= k < l < |y.order| ==> y.order[k] != y.order[l])
    && y.pool == if y.order == [] then initial else y.sweeps[y.order[|y.order| - 1]].gold
  }

  ghost predicate AllInv(sweeps: seq<Sweep>) {
    forall i :: 0 <= i < |sweeps| ==> Inv(sweeps[i])
  }

  lemma NewSweepInv(tunnels: seq<int>)
    ensures Inv(NewSweep(tunnels))
  {
    assert Chosen(tunnels, []) == [];
  }

  lemma ReactKeepsInv(y: System, e: Event)
    requires AllInv(y.sweeps)
    ensures AllInv(React(y, e).sweeps)
  {
    match e
    case Begin(tunnels) => NewSweepInv(tunnels);
    case Of(i, step) =>
      if i < |y.sweeps| && Enabled(y.sweeps[i], step) {
        StepKeeps(y.sweeps[i], step);
      }
  }

  lemma ReactKeepsPool(y: System, e: Event, initial: seq<int>)
    requires AllInv(y.sweeps) && WholePool(y, initial)
    ensures WholePool(React(y, e), initial)
  {
    if e.Of? && e.i < |y.sweeps| && Enabled(y.sweeps[e.i], e.step) {
      PublishedIsFinal(y.sweeps[e.i], e.step);
      SweepReplaced(y, e.i, Apply(y.sweeps[e.i], e.step), initial);
    }
  }

  lemma SweepReplaced(y: System, i: nat, s: Sweep, initial: seq<int>)
    requires WholePool(y, initial) && i < |y.sweeps| && !y.sweeps[i].published
    ensures var sweeps := y.sweeps[i := s];
            WholePool(if s.published then System(sweeps, s.gold, y.order + [i]) else y.(sweeps := sweeps), initial)
  {
    assert i !in y.order;
  }

  lemma PublishedIsFinal(s: Sweep, step: Step)
    requires Inv(s) && Enabled(s, step)
    ensures !s.published && (Apply(s, step).published <==> step.Publish?)
  {
  }

  /** However sweeps overlap, the pool is never a mixture: it is the complete result of
      the sweep that published last, or the initial pool if none has. */
  lemma {:induction false} PoolIsNeverMixed(initial: seq<int>, events: seq<Event>)
    ensures var y := ReactAll(System([], initial, []), events);
            AllInv(y.sweeps) && WholePool(y, initial)
  {
    if events != [] {
      PoolIsNeverMixed(initial, events[..|events| - 1]);
      var y := ReactAll(System([], initial, []), events[..|events| - 1]);
      ReactKeepsInv(y, events[|events| - 1]);
      ReactKeepsPool(y, events[|events| - 1], initial);
    }
  }

  /** A begun sweep is added to those under way; a sweep that can publish replaces the
      pool when it does; and any other step of a sweep leaves pool and other sweeps
      alone. */
  lemma EventsTakeEffect(y: System, events: seq<Event>, tunnels: seq<int>, i: nat, step: Step)
    ensures var y' := ReactAll(y, events);
            && ReactAll(y, events + [Begin(tunnels)]) == y'.(sweeps := y'.sweeps + [NewSweep(tunnels)])
            && (i < |y'.sweeps| && Enabled(y'.sweeps[i], step) ==>
                  var end := ReactAll(y, events + [Of(i, step)]);
                  && end.sweeps == y'.sweeps[i := Apply(y'.sweeps[i], step)]
                  && end.pool == if step.Publish? then y'.sweeps[i].gold else y'.pool)
  {
    assert (events + [Begin(tunnels)])[..|events|] == events;
    assert (events + [Of(i, step)])[..|events|] == events;
  }

  /** The sweep is the state after some steps of a sweep of its own over its tunnels. */
  ghost predicate IsRun(s: Sweep) {
    exists steps :: Takes(NewSweep(s.tunnels), steps) && Last(NewSweep(s.tunnels), steps) == s
  }

  lemma {:induction false} TakesOneMore(s: Sweep, steps: seq<Step>, step: Step)
    requires Takes(s, steps) && Enabled(Last(s, steps), step)
    ensures Takes(s, steps + [step]) && Last(s, steps + [step]) == Apply(Last(s, steps), step)
    decreases |steps|
  {
    if steps == [] {
      assert (steps + [step])[1..] == [];
    } else {
      assert (steps + [step])[1..] == steps[1..] + [step];
      TakesOneMore(Apply(s, steps[0]), steps[1..], step);
    }
  }

  lemma RunGoesOn(s: Sweep, step: Step)
    requires IsRun(s) && Enabled(s, step)
    ensures IsRun(Apply(s, step))
  {
    var steps :| Takes(NewSweep(s.tunnels), steps) && Last(NewSweep(s.tunnels), steps) == s;
    TakesOneMore(NewSweep(s.tunnels), steps, step);
    assert Apply(s, step).tunnels == s.tunnels;
  }

  /** Overlapping sweeps do not disturb each other: each is a run of its own, so that all
      that holds of single sweeps holds of every one of them. */
  lemma {:induction false} SweepsAreRuns(initial: seq<int>, events: seq<Event>)
    ensures forall s <- ReactAll(System([], initial, []), events).sweeps :: IsRun(s)
  {
    if events != [] {
      var n := |events| - 1;
      SweepsAreRuns(initial, events[..n]);
      var y := ReactAll(System([], initial, []), events[..n]);
      match events[n]
      case Begin(tunnels) =>
        assert Takes(NewSweep(tunnels), []) && IsRun(NewSweep(tunnels));
      case Of(i, step) =>
        if i < |y.sweeps| && Enabled(y.sweeps[i], step) {
          RunGoesOn(y.sweeps[i], step);
        }
    }
  }
}
