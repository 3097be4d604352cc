/** One tunnel's process under every interleaving of the manager's operations (one at
    a time), the goroutine that waits for each process, and the health checker, each
    step being one critical section or one action outside the lock. */
module Lifecycle {
  import opened Options
  import opened Tunnels

  /** What the caller of a stop does next. */
  datatype After = Return | Restart | Disconnect

  /** A start has written the status, written the config file, stored config and
      channel in the tunnel, or started the process without having stored it yet. */
  datatype Stage = Begun | Generated | Armed | Spawned

  /** Where the current operation stands. Start number k makes temporary config k,
      channel k and process k. */
  datatype Phase =
    | Idle
    | Start(stage: Stage, id: nat)
    | Waiting(cmd: nat, done: Option<nat>, after: After) // process signalled
    | Removing(after: After)
    | Finished(after: After)

  /** The waiter of start `closer` closed channel `chan`. */
  datatype Close = Close(closer: nat, chan: nat)

  /** `live` holds the running processes, `waiters` the wait goroutines that have not
      yet taken the lock and `closers` those that have released it but not yet closed
      the tunnel's channel. The booleans are history: a channel was made while an
      earlier waiter was unfinished; a stop gave up waiting; a stop began while a
      waiter was between releasing the lock and closing; the last stop began during a
      health probe; the last disconnect left a waiter that had not taken the lock; a
      stop (a disconnect) was the last status-setting operation. */
  datatype State = State(
    status: Status, cmd: Option<nat>, done: Option<nat>, tmpConf: Option<nat>,
    phase: Phase, next: nat,
    live: set<nat>, waiters: set<nat>, closers: set<nat>, closes: seq<Close>, files: set<nat>, probing: bool,
    overlapped: bool, timedOut: bool, crashWindow: bool, straddled: bool, lingering: bool,
    stopHeld: bool, disconnectHeld: bool)

  const INITIAL := State(Stopped, None, None, None, Idle, 0, {}, {}, {}, [], {}, false,
                         false, false, false, false, false, false, false)

  datatype Step =
    | BeginStart | Generate(ok: bool) | Arm | Spawn(ok: bool) | Publish
    | BeginStop(after: After) | Awake | Timeout | RemoveFile | Leave | MarkDisconnected
    | Exit(process: nat) | WaiterLock(waiter: nat) | WaiterClose(waiter: nat)
    | CheckRead | CheckWrite(ok: bool)

  predicate At(s: State, stage: Stage) {
    s.phase.Start? && s.phase.stage == stage
  }

  predicate Closed(s: State, chan: Option<nat>) {
    chan.Some? && exists c <- s.closes :: c.chan == chan.value
  }

  predicate Inactive(st: Status) {
    st == Stopped || st == Status.Error || st == Disconnected
  }

  function Pending(s: State): set<nat> {
    s.waiters + s.closers
  }

  /** A tunnel is started once at first and later only by a restart. */
  predicate Enabled(s: State, step: Step) {
    match step
    case BeginStart => (s.phase == Idle && s.next == 0) || s.phase == Finished(Restart)
    case Generate(_) => At(s, Begun)
    case Arm => At(s, Generated)
    case Spawn(_) => At(s, Armed)
    case Publish => At(s, Spawned)
    case BeginStop(_) => s.phase == Idle
    case Awake => s.phase.Waiting? && (s.phase.done.None? || Closed(s, s.phase.done))
    case Timeout => s.phase.Waiting?
    case RemoveFile => s.phase.Removing?
    case Leave => s.phase == Finished(Return)
    case MarkDisconnected => s.phase == Finished(Disconnect)
    case Exit(p) => p in s.live
    case WaiterLock(w) => w in s.waiters && w !in s.live
    case WaiterClose(w) => w in s.closers && s.done.Some?
    case CheckRead => !s.probing && !Inactive(s.status)
    case CheckWrite(_) => s.probing
  }

  // startTunnel

  function BegunStart(s: State): State {
    s.(status := Starting, phase := Start(Begun, s.next), next := s.next + 1, stopHeld := false,
       disconnectHeld := false)
  }

  function ConfigWritten(s: State, ok: bool): State
    requires At(s, Begun)
  {
    if ok then s.(files := s.files + {s.phase.id}, phase := s.phase.(stage := Generated))
    else s.(status := Status.Error, phase := Idle)
  }

  function ChannelMade(s: State): State
    requires At(s, Generated)
  {
    s.(tmpConf := Some(s.phase.id), done := Some(s.phase.id), phase := s.phase.(stage := Armed),
       overlapped := s.overlapped || Pending(s) != {})
  }

  function ProcessStarted(s: State, ok: bool): State
    requires At(s, Armed)
  {
    if ok then s.(live := s.live + {s.phase.id}, phase := s.phase.(stage := Spawned))
    else s.(status := Status.Error, phase := Idle)
  }

  function Published(s: State): State
    requires At(s, Spawned)
  {
    s.(cmd := Some(s.phase.id), status := Running, waiters := s.waiters + {s.phase.id}, phase := Idle)
  }

  // stopTunnel and its callers

  function BegunStop(s: State, after: After): State {
    s.(status := Stopped, stopHeld := true, disconnectHeld := false,
       phase := if s.cmd.None? then Removing(after) else Waiting(s.cmd.value, s.done, after),
       straddled := s.probing, crashWindow := s.crashWindow || s.closers != {})
  }

  function WaitEnded(s: State, timedOut: bool): State
    requires s.phase.Waiting?
  {
    s.(phase := Removing(s.phase.after), timedOut := s.timedOut || timedOut)
  }

  function FileRemoved(s: State): State
    requires s.phase.Removing?
  {
    s.(files := if s.tmpConf.None? then s.files else s.files - {s.tmpConf.value}, phase := Finished(s.phase.after))
  }

  function MarkedDisconnected(s: State): State {
    s.(status := Disconnected, stopHeld := false, disconnectHeld := true, lingering := s.waiters != {}, phase := Idle)
  }

  // the waiter of process w

  function WaiterLocked(s: State, w: nat): State {
    s.(status := if s.status == Stopped then Stopped else Status.Error, cmd := None,
       waiters := s.waiters - {w}, closers := s.closers + {w})
  }

  /** The waiter closes whatever channel the tunnel holds by now. */
  function WaiterClosed(s: State, w: nat): State
    requires s.done.Some?
  {
    s.(closers := s.closers - {w}, closes := s.closes + [Close(w, s.done.value)])
  }

  /** One step of any actor; a step that is not enabled changes nothing. */
  function Apply(s: State, step: Step): State {
    if !Enabled(s, step) then s
    else
      match step
      case BeginStart => BegunStart(s)
      case Generate(ok) => ConfigWritten(s, ok)
      case Arm => ChannelMade(s)
      case Spawn(ok) => ProcessStarted(s, ok)
      case Publish => Published(s)
      case BeginStop(after) => BegunStop(s, after)
      case Awake => WaitEnded(s, false)
      case Timeout => WaitEnded(s, true)
      case RemoveFile => FileRemoved(s)
      case Leave => s.(phase := Idle)
      case MarkDisconnected => MarkedDisconnected(s)
      case Exit(p) => s.(live := s.live - {p})
      case WaiterLock(w) => WaiterLocked(s, w)
      case WaiterClose(w) => WaiterClosed(s, w)
      case CheckRead => s.(probing := true)
      case CheckWrite(ok) => s.(status := if ok then Running else Unhealthy, probing := false)
  }

  function Run(s: State, steps: seq<Step>): State {
    if steps == [] then s else Apply(Run(s, steps[..|steps| - 1]), steps[|steps| - 1])
  }

  // What holds in every run

  /** Start numbers grow, so a pending waiter is older than a start in progress. */
  ghost predicate Numbered(s: State) {
    && (s.phase.Start? ==> s.phase.id + 1 == s.next && forall w <- Pending(s) :: w < s.phase.id)
    && (forall w <- Pending(s) :: w < s.next)
    && (Pending(s) != {} ==> s.done.Some?)
    && (s.done.Some? ==> s.done.value < s.next)
    && (At(s, Armed) || At(s, Spawned) ==> s.done == Some(s.phase.id))
  }

  /** Once a channel was made over an unfinished waiter, that waiter has closed, or is
      still going to close, a channel that is not its own. */
  ghost predicate Doomed(s: State) {
    || (exists w <- Pending(s) :: s.done.Some? && w < s.done.value)
    || (exists c <- s.closes :: c.closer != c.chan)
  }

  /** Everything that holds as long as no channel was made over an unfinished waiter. */
  ghost predicate Orderly(s: State) {
    && s.waiters !! s.closers
    && (forall w <- Pending(s) :: s.done == Some(w))
    && (s.cmd.Some? ==> s.cmd.value in s.waiters) && (s.waiters != {} ==> s.cmd.Some?)
    && (forall p <- s.live :: p in s.waiters || s.phase == Start(Spawned, p))
    && (At(s, Armed) || At(s, Spawned) ==> Pending(s) == {})
    && (s.phase.Waiting? ==> s.phase.done == s.done == Some(s.phase.cmd))
    && (forall c <- s.closes ::
          c.closer == c.chan && c.closer < s.next && c.closer !in Pending(s) && !StartOf(s.phase, c.closer))
    && forall i, j :: 0 <= i < j < |s.closes| ==> s.closes[i].chan != s.closes[j].chan
  }

  predicate StartOf(p: Phase, id: nat) {
    p.Start? && p.id == id
  }

  /** The temporary config on disk is the one the tunnel remembers, or the one just
      written; none is left when a start begins. */
  ghost predicate OneConfig(s: State) {
    && (At(s, Begun) || s.phase.Finished? || s.next == 0 ==> s.files == {})
    && (At(s, Generated) ==> s.files == {s.phase.id})
    && (!At(s, Generated) ==> forall f <- s.files :: s.tmpConf == Some(f))
  }

  /** Without a timeout or a stop inside a crash window, a stop that got past its wait
      leaves no waiter behind, and none appears until the next process is stored. */
  ghost predicate Drained(s: State) {
    && (s.phase.Removing? || s.phase.Finished? || s.phase.Start? || s.disconnectHeld ==> Pending(s) == {})
    && (s.disconnectHeld ==> !s.lingering)
  }

  /** A stopped tunnel is Stopped and not being probed. */
  ghost predicate Held(s: State) {
    && (s.stopHeld ==> !s.phase.Start? && (!s.straddled ==> s.status == Stopped && !s.probing))
    && (s.disconnectHeld ==> s.phase == Idle && !s.stopHeld)
    && (s.phase.Waiting? || s.phase.Removing? || s.phase.Finished? ==> s.stopHeld)
  }

  ghost predicate DisconnectHolds(s: State) {
    s.disconnectHeld && !s.straddled && !s.lingering ==>
      s.status == Disconnected && !s.probing && s.waiters == {}
  }

  predicate Undisturbed(s: State) {
    !s.timedOut && !s.crashWindow
  }

  ghost predicate Inv(s: State) {
    && Numbered(s) && OneConfig(s) && Held(s) && DisconnectHolds(s)
    && (s.overlapped ==> Doomed(s))
    && (!s.overlapped ==> Orderly(s))
    && (Undisturbed(s) ==> !s.overlapped && Drained(s))
  }

  // Every step keeps the invariant

  lemma BegunStartKeeps(s: State)
    requires Inv(s) && Enabled(s, BeginStart)
    ensures Inv(BegunStart(s))
  {
    assert Pending(BegunStart(s)) == Pending(s);
  }

  lemma ConfigWrittenKeeps(s: State, ok: bool)
    requires Inv(s) && At(s, Begun)
    ensures Inv(ConfigWritten(s, ok))
  {
    assert Pending(ConfigWritten(s, ok)) == Pending(s);
  }

  lemma ChannelMadeKeeps(s: State)
    requires Inv(s) && At(s, Generated)
    ensures Inv(ChannelMade(s))
  {
    var s' := ChannelMade(s);
    assert Pending(s') == Pending(s);
  }

  lemma ProcessStartedKeeps(s: State, ok: bool)
    requires Inv(s) && At(s, Armed)
    ensures Inv(ProcessStarted(s, ok))
  {
    assert Pending(ProcessStarted(s, ok)) == Pending(s);
  }

  lemma PublishedKeeps(s: State)
    requires Inv(s) && At(s, Spawned)
    ensures Inv(Published(s))
  {
    var s' := Published(s);
    assert Pending(s') == Pending(s) + {s.phase.id};
  }

  lemma BegunStopKeeps(s: State, after: After)
    requires Inv(s) && s.phase == Idle
    ensures Inv(BegunStop(s, after))
  {
    assert Pending(BegunStop(s, after)) == Pending(s);
  }

  lemma WaitEndedKeeps(s: State, timedOut: bool)
    requires Inv(s) && s.phase.Waiting? && (!timedOut ==> s.phase.done.None? || Closed(s, s.phase.done))
    ensures Inv(WaitEnded(s, timedOut))
  {
    assert Pending(WaitEnded(s, timedOut)) == Pending(s);
  }

  lemma FileRemovedKeeps(s: State)
    requires Inv(s) && s.phase.Removing?
    ensures Inv(FileRemoved(s))
  {
    assert Pending(FileRemoved(s)) == Pending(s);
    assert FileRemoved(s).files == {};
  }

  lemma MarkedDisconnectedKeeps(s: State)
    requires Inv(s) && s.phase == Finished(Disconnect)
    ensures Inv(MarkedDisconnected(s))
  {
    assert Pending(MarkedDisconnected(s)) == Pending(s);
  }

  lemma WaiterLockedKeeps(s: State, w: nat)
    requires Inv(s) && w in s.waiters && w !in s.live
    ensures Inv(WaiterLocked(s, w))
  {
    assert Pending(WaiterLocked(s, w)) == Pending(s);
  }

  lemma WaiterClosedKeeps(s: State, w: nat)
    requires Inv(s) && w in s.closers && s.done.Some?
    ensures Inv(WaiterClosed(s, w))
  {
    var s' := WaiterClosed(s, w);
    assert forall v <- Pending(s) :: v == w || v in Pending(s');
    assert forall v <- Pending(s') :: v in Pending(s);
    assert Close(w, s.done.value) in s'.closes && forall c <- s.closes :: c in s'.closes;
  }

  lemma LeaveKeeps(s: State)
    requires Inv(s) && s.phase == Finished(Return)
    ensures Inv(s.(phase := Idle))
  {
    assert Pending(s.(phase := Idle)) == Pending(s);
  }

  lemma ExitKeeps(s: State, p: nat)
    requires Inv(s) && p in s.live
    ensures Inv(s.(live := s.live - {p}))
  {
    assert Pending(s.(live := s.live - {p})) == Pending(s);
  }

  lemma StepKeeps(s: State, step: Step)
    requires Inv(s)
    ensures Inv(Apply(s, step))
  {
    if Enabled(s, step) {
      match step
      case BeginStart => BegunStartKeeps(s);
      case Generate(ok) => ConfigWrittenKeeps(s, ok);
      case Arm => ChannelMadeKeeps(s);
      case Spawn(ok) => ProcessStartedKeeps(s, ok);
      case Publish => PublishedKeeps(s);
      case BeginStop(after) => BegunStopKeeps(s, after);
      case Awake => WaitEndedKeeps(s, false);
      case Timeout => WaitEndedKeeps(s, true);
      case RemoveFile => FileRemovedKeeps(s);
      case MarkDisconnected => MarkedDisconnectedKeeps(s);
      case WaiterLock(w) => WaiterLockedKeeps(s, w);
      case WaiterClose(w) => WaiterClosedKeeps(s, w);
      case Leave => LeaveKeeps(s);
      case Exit(p) => ExitKeeps(s, p);
      case _ => CheckKeeps(s, step);
    }
  }

  lemma CheckKeeps(s: State, step: Step)
    requires Inv(s) && Enabled(s, step) && (step.CheckRead? || step.CheckWrite?)
    ensures Inv(Apply(s, step))
  {
    assert Pending(Apply(s, step)) == Pending(s);
  }

  lemma {:induction false} RunKeeps(steps: seq<Step>)
    ensures Inv(Run(INITIAL, steps))
  {
    if steps != [] {
      RunKeeps(steps[..|steps| - 1]);
      StepKeeps(Run(INITIAL, steps[..|steps| - 1]), steps[|steps| - 1]);
    }
  }

  // Main results

  /** At most one process runs, the stored command is one whose waiter is still to run,
      no channel is closed twice, each only by its own waiter, and at most one temporary
      config is on disk. */
  ghost predicate Safe(s: State) {
    && (forall p, q :: p in s.live && q in s.live ==> p == q)
    && (s.cmd.Some? ==> s.cmd.value in s.waiters)
    && (forall c <- s.closes :: c.closer == c.chan)
    && (forall i, j :: 0 <= i < j < |s.closes| ==> s.closes[i].chan != s.closes[j].chan)
    && (forall f, g :: f in s.files && g in s.files ==> f == g)
  }

  /** Safety holds in every run, timeouts included, in which no start makes its channel
      while an earlier waiter is unfinished. */
  lemma {:induction false} SafeUnlessOverlapped(steps: seq<Step>)
    ensures !Run(INITIAL, steps).overlapped ==> Safe(Run(INITIAL, steps))
  {
    RunKeeps(steps);
    var s := Run(INITIAL, steps);
    if !s.overlapped {
      assert forall w <- s.waiters :: w in Pending(s);
    }
  }

  /** That condition is exact: once every waiter has finished, some channel was closed
      by a foreign waiter if and only if it was violated. */
  lemma {:induction false} OverlapExact(steps: seq<Step>)
    requires Pending(Run(INITIAL, steps)) == {}
    ensures Run(INITIAL, steps).overlapped <==> exists c <- Run(INITIAL, steps).closes :: c.closer != c.chan
  {
    RunKeeps(steps);
  }

  /** And it can only be violated after a stop gave up waiting (the 5s kill), or began
      while the waiter of a crashed process had released the lock but not yet closed
      the channel. */
  lemma {:induction false} OverlapSources(steps: seq<Step>)
    ensures Undisturbed(Run(INITIAL, steps)) ==> !Run(INITIAL, steps).overlapped && Safe(Run(INITIAL, steps))
  {
    RunKeeps(steps);
    SafeUnlessOverlapped(steps);
  }

  /** In every run, timeouts included, a stop that began outside a health probe keeps
      the tunnel Stopped until the next start or disconnect, whatever earlier probes and
      stops did. A disconnect then keeps it Disconnected until the next stop, unless it
      left a waiter that had not taken the lock, which needs a timeout or a crash
      window. */
  lemma StoppedStaysStopped(steps: seq<Step>)
    ensures var s := Run(INITIAL, steps);
            && (s.stopHeld && !s.straddled ==> s.status == Stopped)
            && (s.disconnectHeld && !s.straddled && !s.lingering ==> s.status == Disconnected)
            && (s.disconnectHeld && Undisturbed(s) ==> !s.lingering)
  {
    RunKeeps(steps);
  }

  /** The condition is exact step by step: a stopped tunnel's status survives every next
      step that is not a start or a disconnect exactly when no probe is under way. */
  lemma StoppedFragileExactly(s: State)
    requires Held(s) && s.stopHeld && s.status == Stopped
    ensures (forall step: Step :: Apply(s, step).stopHeld ==> Apply(s, step).status == Stopped) <==> !s.probing
  {
    if s.probing {
      var step := CheckWrite(true);
      assert Apply(s, step).stopHeld && Apply(s, step).status == Running;
    } else {
      forall step: Step | Apply(s, step).stopHeld
        ensures Apply(s, step).status == Stopped
      {
        UnprobedStays(s, step);
      }
    }
  }

  lemma UnprobedStays(s: State, step: Step)
    requires Held(s) && s.stopHeld && s.status == Stopped && !s.probing && Apply(s, step).stopHeld
    ensures Apply(s, step).status == Stopped
  {
    match step
    case BeginStart =>
    case Generate(_) =>
    case Arm =>
    case _ =>
  }

  /** For a disconnected tunnel no exited process's waiter may be due to take the lock
      either. */
  lemma DisconnectedFragileExactly(s: State)
    requires Held(s) && s.disconnectHeld && s.status == Disconnected
    ensures (forall step: Step :: Apply(s, step).disconnectHeld ==> Apply(s, step).status == Disconnected)
            <==> !s.probing && s.waiters <= s.live
  {
    if s.probing {
      var step := CheckWrite(true);
      assert Apply(s, step).disconnectHeld && Apply(s, step).status == Running;
    } else if w :| w in s.waiters && w !in s.live {
      var step := WaiterLock(w);
      assert Apply(s, step).disconnectHeld && Apply(s, step).status == Status.Error;
    } else {
      forall step: Step | Apply(s, step).disconnectHeld
        ensures Apply(s, step).status == Disconnected
      {
        DisconnectedStays(s, step);
      }
    }
  }

  lemma DisconnectedStays(s: State, step: Step)
    requires Held(s) && s.disconnectHeld && s.status == Disconnected && !s.probing && s.waiters <= s.live
    requires Apply(s, step).disconnectHeld
    ensures Apply(s, step).status == Disconnected
  {
    match step
    case BeginStart =>
    case Generate(_) =>
    case Arm =>
    case _ =>
  }

  // The status, read off the steps

  /** Whether a step sets the status: an operation's own transition, a start that fails,
      a waiter that finds the tunnel not stopped, a check's verdict. */
  predicate Sets(s: State, step: Step) {
    && Enabled(s, step)
    && (step.BeginStart? || step == Generate(false) || step == Spawn(false) || step.Publish? || step.BeginStop?
        || step.MarkDisconnected? || step.CheckWrite? || (step.WaiterLock? && s.status != Stopped))
  }

  function LastSetter(steps: seq<Step>): Option<Step> {
    if steps == [] then None
    else
      var init, step := steps[..|steps| - 1], steps[|steps| - 1];
      if Sets(Run(INITIAL, init), step) then Some(step) else LastSetter(init)
  }

  /** The status is the one this step is known to set. */
  predicate Explains(last: Option<Step>, st: Status) {
    && (st == Stopped <==> last.None? || last.value.BeginStop?)
    && (st == Starting <==> last == Some(BeginStart))
    && (st == Running <==> last == Some(Publish) || last == Some(CheckWrite(true)))
    && (st == Unhealthy <==> last == Some(CheckWrite(false)))
    && (st == Status.Error <==>
          last == Some(Generate(false)) || last == Some(Spawn(false)) || (last.Some? && last.value.WaiterLock?))
    && (st == Disconnected <==> last == Some(MarkDisconnected))
  }

  /** In every run each status is held exactly because of the last step that set it. */
  lemma {:induction false} StatusExactly(steps: seq<Step>)
    ensures Explains(LastSetter(steps), Run(INITIAL, steps).status)
  {
    if steps != [] {
      var init := steps[..|steps| - 1];
      StatusExactly(init);
      StatusStep(Run(INITIAL, init), steps[|steps| - 1]);
    }
  }

  lemma StatusStep(s: State, step: Step)
    ensures if Sets(s, step) then Explains(Some(step), Apply(s, step).status) else Apply(s, step).status == s.status
  {
    if Sets(s, step) {
      SetterSets(s, step);
    } else {
      OtherKeeps(s, step);
    }
  }

  lemma SetterSets(s: State, step: Step)
    requires Sets(s, step)
    ensures Explains(Some(step), Apply(s, step).status)
  {
    match step
    case BeginStart => assert Apply(s, step).status == Starting;
    case Generate(_) => assert Apply(s, step).status == Status.Error;
    case Spawn(_) => assert Apply(s, step).status == Status.Error;
    case Publish => assert Apply(s, step).status == Running;
    case BeginStop(_) => assert Apply(s, step).status == Stopped;
    case MarkDisconnected => assert Apply(s, step).status == Disconnected;
    case WaiterLock(_) => assert Apply(s, step).status == Status.Error;
    case CheckWrite(ok) => assert Apply(s, step).status == if ok then Running else Unhealthy;
  }

  lemma OtherKeeps(s: State, step: Step)
    requires !Sets(s, step)
    ensures Apply(s, step).status == s.status
  {
    match step
    case BeginStart =>
    case Generate(_) =>
    case Arm =>
    case _ =>
  }

  /** A check of an active tunnel reports it Running exactly if the probe passes, and
      Unhealthy otherwise; on any other tunnel a check does nothing. */
  lemma CheckReports(s: State, ok: bool)
    requires !s.probing
    ensures Apply(Apply(s, CheckRead), CheckWrite(ok)) ==
            if s.status == Starting || s.status == Running || s.status == Unhealthy then
              s.(status := if ok then Running else Unhealthy)
            else s
  {
    var read := Apply(s, CheckRead);
    assert read == if Inactive(s.status) then s else s.(probing := true);
  }

  // Operations end

  /** How many steps the operation in progress still takes at most. */
  function Left(p: Phase): nat {
    match p
    case Idle => 0
    case Start(Spawned, _) => 1
    case Start(Armed, _) => 2
    case Start(Generated, _) => 3
    case Start(Begun, _) => 4
    case Finished(Restart) => 5
    case Finished(_) => 1
    case Removing(_) => 6
    case Waiting(_, _, _) => 7
  }

  predicate Advances(step: Step) {
    || step.BeginStart? || step.Generate? || step.Arm? || step.Spawn? || step.Publish?
    || step.Awake? || step.Timeout? || step.RemoveFile? || step.Leave? || step.MarkDisconnected?
  }

  /** Every operation ends, successful or not: each of its own steps brings it closer to
      its end, and no step of waiters, processes or the checker delays it. */
  lemma OperationsEnd(s: State, step: Step)
    requires s.phase != Idle
    ensures Enabled(s, step) && Advances(step) ==> Left(Apply(s, step).phase) < Left(s.phase)
    ensures !Advances(step) ==> Apply(s, step).phase == s.phase
  {
    if Enabled(s, step) && Advances(step) {
      OwnStepAdvances(s, step);
    } else if !Advances(step) {
      OthersKeepPhase(s, step);
    }
  }

  lemma OwnStepAdvances(s: State, step: Step)
    requires s.phase != Idle && Enabled(s, step) && Advances(step)
    ensures Left(Apply(s, step).phase) < Left(s.phase)
  {
    PhaseAfter(s, step);
  }

  /** Where an operation's own step takes it. */
  function Next(p: Phase, step: Step, next: nat): Phase {
    match step
    case BeginStart => Start(Begun, next)
    case Generate(ok) => if p.Start? && ok then Start(Generated, p.id) else Idle
    case Arm => if p.Start? then Start(Armed, p.id) else Idle
    case Spawn(ok) => if p.Start? && ok then Start(Spawned, p.id) else Idle
    case Awake => if p.Waiting? then Removing(p.after) else Idle
    case Timeout => if p.Waiting? then Removing(p.after) else Idle
    case RemoveFile => if p.Removing? then Finished(p.after) else Idle
    case _ => Idle
  }

  lemma PhaseAfter(s: State, step: Step)
    requires Enabled(s, step) && Advances(step)
    ensures Apply(s, step).phase == Next(s.phase, step, s.next)
  {
    match step
    case BeginStart =>
    case Generate(_) =>
    case Arm =>
    case Spawn(_) =>
    case Publish =>
    case Awake =>
    case Timeout =>
    case RemoveFile =>
    case Leave =>
    case MarkDisconnected =>
  }

  lemma OthersKeepPhase(s: State, step: Step)
    requires s.phase != Idle && !Advances(step)
    ensures Apply(s, step).phase == s.phase
  {
    match step
    case BeginStop(_) =>
    case WaiterLock(_) =>
    case WaiterClose(_) =>
    case _ =>
  }

  /** Until then one of its own steps is possible, for a stop whose channel is never
      closed the timeout; and a started tunnel without an operation in progress can be
      stopped. */
  lemma OperationsGoOn(s: State, after: After)
    ensures s.phase != Idle ==> exists step :: Advances(step) && Enabled(s, step)
    ensures s.phase == Idle ==> Enabled(s, BeginStop(after))
  {
    match s.phase
    case Idle =>
    case Start(Begun, _) => assert Enabled(s, Generate(true)) && Enabled(s, Generate(false));
    case Start(Generated, _) => assert Enabled(s, Arm);
    case Start(Armed, _) => assert Enabled(s, Spawn(true)) && Enabled(s, Spawn(false));
    case Start(Spawned, _) => assert Enabled(s, Publish);
    case Waiting(_, _, _) => assert Enabled(s, Timeout);
    case Removing(_) => assert Enabled(s, RemoveFile);
    case Finished(Return) => assert Enabled(s, Leave);
    case Finished(Restart) => assert Enabled(s, BeginStart);
    case Finished(Disconnect) => assert Enabled(s, MarkDisconnected);
  }

  // Runs that go wrong

  lemma Extend(steps: seq<Step>, s: State, step: Step) returns (steps': seq<Step>, s': State)
    requires Run(INITIAL, steps) == s && Enabled(s, step)
    ensures Run(INITIAL, steps') == s' == Apply(s, step)
  {
    steps', s' := steps + [step], Apply(s, step);
    assert steps'[..|steps'| - 1] == steps;
  }

  /** The start steps of start number `next`, up to the stored channel. */
  lemma ExtendStart(steps: seq<Step>, s: State) returns (steps': seq<Step>, s': State)
    requires Run(INITIAL, steps) == s && Enabled(s, BeginStart)
    ensures Run(INITIAL, steps') == s'
    ensures s' == s.(status := Starting, phase := Start(Armed, s.next), next := s.next + 1, stopHeld := false,
                     disconnectHeld := false, files := s.files + {s.next}, tmpConf := Some(s.next),
                     done := Some(s.next), overlapped := s.overlapped || Pending(s) != {})
  {
    var t1, s1 := Extend(steps, s, BeginStart);
    var t2, s2 := Extend(t1, s1, Generate(true));
    assert Pending(s2) == Pending(s);
    steps', s' := Extend(t2, s2, Arm);
  }

  lemma ExtendLaunch(steps: seq<Step>, s: State) returns (steps': seq<Step>, s': State)
    requires Run(INITIAL, steps) == s && At(s, Armed)
    ensures Run(INITIAL, steps') == s'
    ensures s' == s.(live := s.live + {s.phase.id}, cmd := Some(s.phase.id), status := Running,
                     waiters := s.waiters + {s.phase.id}, phase := Idle)
  {
    var t1, s1 := Extend(steps, s, Spawn(true));
    steps', s' := Extend(t1, s1, Publish);
  }

  lemma FirstProcess() returns (steps: seq<Step>, s: State)
    ensures Run(INITIAL, steps) == s
    ensures s == INITIAL.(status := Running, cmd := Some(0), done := Some(0), tmpConf := Some(0), next := 1,
                          live := {0}, waiters := {0}, files := {0})
  {
    steps, s := ExtendStart([], INITIAL);
    steps, s := ExtendLaunch(steps, s);
  }

  /** The first process crashes, and a stop for a restart passes while its waiter is
      between releasing the lock and closing the channel. */
  lemma CrashedAndStopped() returns (steps: seq<Step>, s: State)
    ensures Run(INITIAL, steps) == s
    ensures s == INITIAL.(done := Some(0), tmpConf := Some(0), next := 1, closers := {0}, phase := Finished(Restart),
                          stopHeld := true, crashWindow := true)
  {
    steps, s := FirstProcess();
    steps, s := Extend(steps, s, Exit(0));
    assert s.live == {};
    steps, s := Extend(steps, s, WaiterLock(0));
    assert s.waiters == {} && s.closers == {0};
    steps, s := Extend(steps, s, BeginStop(Restart));
    steps, s := Extend(steps, s, RemoveFile);
    assert s.files == {};
  }

  /** The restart then stores a new channel, and it is this one that the old waiter
      closes. No timeout is involved. */
  lemma CrashThenRestart() returns (steps: seq<Step>, s: State)
    ensures Run(INITIAL, steps) == s && !s.timedOut && s.overlapped && s.closes == [Close(0, 1)]
    ensures s.phase == Idle && s.next == 2 && s.cmd == s.done == s.tmpConf == Some(1)
    ensures s.waiters == s.live == {1} && s.closers == {} && s.files == {1}
  {
    steps, s := CrashedAndStopped();
    assert 0 in Pending(s);
    steps, s := ExtendStart(steps, s);
    steps, s := Extend(steps, s, WaiterClose(0));
    assert s.closers == {};
    steps, s := ExtendLaunch(steps, s);
  }

  /** From there the second process's own exit closes that channel a second time, which
      panics. */
  lemma ChannelClosedTwice() returns (steps: seq<Step>, s: State)
    ensures Run(INITIAL, steps) == s && !s.timedOut && s.closes == [Close(0, 1), Close(1, 1)]
  {
    steps, s := CrashThenRestart();
    steps, s := Extend(steps, s, Exit(1));
    steps, s := Extend(steps, s, WaiterLock(1));
    steps, s := Extend(steps, s, WaiterClose(1));
  }

  /** Or the next restart finds the channel closed, does not wait, and starts a third
      process beside the second. */
  lemma TwoLiveProcesses() returns (steps: seq<Step>, s: State)
    ensures Run(INITIAL, steps) == s && !s.timedOut && s.live == {1, 2}
  {
    steps, s := CrashThenRestart();
    steps, s := Extend(steps, s, BeginStop(Restart));
    assert s.closes[0].chan == 1;
    assert Closed(s, Some(1));
    steps, s := Extend(steps, s, Awake);
    steps, s := Extend(steps, s, RemoveFile);
    steps, s := ExtendStart(steps, s);
    steps, s := ExtendLaunch(steps, s);
  }

  /** After the 5s kill, the old waiter clears the new command and closes the new
      channel. */
  lemma KillThenRestart() returns (steps: seq<Step>, s: State)
    ensures Run(INITIAL, steps) == s && !s.crashWindow && s.overlapped
    ensures s.live == {1} && s.cmd == None && s.closes == [Close(0, 1)]
  {
    steps, s := FirstProcess();
    steps, s := Extend(steps, s, BeginStop(Restart));
    steps, s := Extend(steps, s, Timeout);
    steps, s := Extend(steps, s, RemoveFile);
    assert 0 in Pending(s);
    steps, s := ExtendStart(steps, s);
    steps, s := Extend(steps, s, Exit(0));
    assert s.live == {};
    steps, s := ExtendLaunch(steps, s);
    steps, s := Extend(steps, s, WaiterLock(0));
    steps, s := Extend(steps, s, WaiterClose(0));
  }

  /** A probe that read the tunnel as running before a stop reports it Running after. */
  lemma ProbeStraddlesStop() returns (steps: seq<Step>, s: State)
    ensures Run(INITIAL, steps) == s && s.stopHeld && s.straddled && s.status == Running
  {
    steps, s := FirstProcess();
    steps, s := Extend(steps, s, CheckRead);
    steps, s := Extend(steps, s, BeginStop(Return));
    steps, s := Extend(steps, s, CheckWrite(true));
  }

  /** After the 5s kill in a disconnect, the late waiter turns the disconnected tunnel
      into a failed one. */
  lemma {:induction false} DisconnectedTurnsError() returns (steps: seq<Step>, s: State)
    ensures Run(INITIAL, steps) == s && s.disconnectHeld && s.lingering && s.status == Status.Error
  {
    steps, s := FirstProcess();
    steps, s := Extend(steps, s, BeginStop(After.Disconnect));
    steps, s := Extend(steps, s, Timeout);
    steps, s := Extend(steps, s, RemoveFile);
    steps, s := Extend(steps, s, MarkDisconnected);
    steps, s := Extend(steps, s, Exit(0));
    steps, s := Extend(steps, s, WaiterLock(0));
  }
}
