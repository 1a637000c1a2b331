/**
 The worker pool of `pgrep.c` as a step system: a producer, `n` workers and the signal thread, each
 with its own program counter, share a mutex, two condition variables, a stack of pids waiting to be
 traced and a table of pids being traced. Reading `done`, taking or giving up the mutex, looking at
 one slot and waking others are steps of their own, and any thread may take the next step. Timed
 waits may end at any moment.
 */
module Pool {

  datatype Owner = Free | ByProducer | ByWorker(w: nat) | BySignal

  datatype ProducerPc =
    | PLoop                                       // `while (!done)` around everything
    | PLock                                       // wait_for_turn: taking the mutex
    | PCheck                                      // its loop test reads `done`, mutex held
    | PTest                                       // `done` was not set: is there a turn to take?
    | PWait                                       // asleep on can_produce
    | PWoken                                      // awake, mutex not yet retaken
    | PTurn                                       // the second look at `done`
    | PRead(lines: seq<int>, found: nat)          // next line of pgrep's output
    | PScan(lines: seq<int>, found: nat, pid: int, i: nat)  // is_already_attached, slot i
    | PAfter(found: nat)
    | PWaitIdle                                   // asleep on can_produce: nothing was found
    | PWokenIdle
    | PUnlock
    | PExit

  datatype WorkerPc =
    | WLoop | WLock | WCheck | WTest | WWait | WWoken | WTurn
    | WClaim                                      // its turn: pop a pid
    | WUnlock
    | WTrace(pid: int)                            // main_pid
    | WClear                                      // main_pid is back, slot not yet cleared
    | WExit

  datatype SignalPc = SIdle | SDone | SLocked | SWokeConsumers | SWokeAll | SExit

  /** `claims[w]` counts the pids worker `w` has taken since `done` was set. */
  datatype State = State(n: nat, done: bool, owner: Owner,
                         avail: seq<int>, attached: seq<int>,
                         prod: ProducerPc, work: seq<WorkerPc>, sig: SignalPc, claims: seq<nat>)

  datatype Step =
    | Producer(output: seq<int>)                  // what pgrep prints, should this step run it
    | ProducerTimeout
    | Worker(w: nat)
    | WorkerTimeout(w: nat)
    | Signal

  function Init(n: nat): State {
    State(n, false, Free, [], seq(n, _ => 0), PLoop, seq(n, _ => WLoop), SIdle, seq(n, _ => 0))
  }

  // ---------- condition variables ----------

  function Wake(pc: WorkerPc): WorkerPc { if pc == WWait then WWoken else pc }

  /** Broadcast on can_consume. */
  function WakeConsumers(work: seq<WorkerPc>): (r: seq<WorkerPc>)
    ensures |r| == |work|
    ensures forall w :: 0 <= w < |work| ==> r[w] == Wake(work[w])
  {
    seq(|work|, w requires 0 <= w < |work| => Wake(work[w]))
  }

  /** Signal or broadcast on can_produce: only the producer ever waits there. */
  function WakeProducer(pc: ProducerPc): ProducerPc {
    match pc
    case PWait => PWoken
    case PWaitIdle => PWokenIdle
    case _ => pc
  }

  // ---------- steps ----------

  predicate PositivePids(pids: seq<int>) { forall i :: 0 <= i < |pids| ==> pids[i] > 0 }

  predicate ProducerEnabled(s: State, output: seq<int>) {
    match s.prod
    case PLock => s.owner == Free
    case PWoken => s.owner == Free
    case PWokenIdle => s.owner == Free
    case PTurn => PositivePids(output)
    case PWait => false
    case PWaitIdle => false
    case PExit => false
    case _ => true
  }

  function ProducerNext(s: State, output: seq<int>): State
    requires ProducerEnabled(s, output) && |s.attached| == s.n
  {
    match s.prod
    case PLoop => s.(prod := if s.done then PExit else PLock)
    case PLock => s.(owner := ByProducer, prod := PCheck)
    case PCheck => s.(prod := if s.done then PTurn else PTest)
    case PTest =>
      // a full queue falls through to the test the workers use
      if |s.avail| < s.n || |s.avail| > 0 then s.(prod := PTurn)
      else s.(owner := Free, prod := PWait)
    case PWoken => s.(owner := ByProducer, prod := PCheck)
    case PTurn =>
      if s.done then s.(owner := Free, prod := PExit) else s.(prod := PRead(output, 0))
    case PRead(lines, found) =>
      if |s.avail| < s.n && lines != [] then s.(prod := PScan(lines[1..], found, lines[0], 0))
      else s.(prod := PAfter(found))
    case PScan(lines, found, pid, i) =>
      if i >= s.n then s.(avail := s.avail + [pid], prod := PRead(lines, found + 1))
      else if s.attached[i] == pid || (i < |s.avail| && s.avail[i] == pid) then s.(prod := PRead(lines, found))
      else s.(prod := PScan(lines, found, pid, i + 1))
    case PAfter(found) =>
      if found > 0 then s.(work := WakeConsumers(s.work), prod := PUnlock)
      else s.(owner := Free, prod := PWaitIdle)
    case PWokenIdle => s.(owner := ByProducer, prod := PUnlock)
    case PUnlock => s.(owner := Free, prod := PLoop)
    case _ => s
  }

  predicate WorkerEnabled(s: State, w: nat) {
    && w < |s.work|
    && match s.work[w]
       case WLock => s.owner == Free
       case WWoken => s.owner == Free
       case WWait => false
       case WExit => false
       case _ => true
  }

  function WorkerNext(s: State, w: nat): State
    requires WorkerEnabled(s, w) && |s.attached| == |s.work| == |s.claims|
    requires s.work[w] == WClaim ==> s.avail != []
  {
    match s.work[w]
    case WLoop => s.(work := s.work[w := if s.done then WExit else WLock])
    case WLock => s.(owner := ByWorker(w), work := s.work[w := WCheck])
    case WCheck => s.(work := s.work[w := if s.done then WTurn else WTest])
    case WTest =>
      if |s.avail| > 0 then s.(work := s.work[w := WTurn])
      else s.(owner := Free, work := s.work[w := WWait])
    case WWoken => s.(owner := ByWorker(w), work := s.work[w := WCheck])
    case WTurn =>
      if s.done then s.(owner := Free, work := s.work[w := WExit]) else s.(work := s.work[w := WClaim])
    case WClaim =>
      var last := |s.avail| - 1;
      s.(attached := s.attached[w := s.avail[last]], avail := s.avail[..last],
         prod := WakeProducer(s.prod), work := s.work[w := WUnlock],
         claims := if s.done then s.claims[w := s.claims[w] + 1] else s.claims)
    case WUnlock => s.(owner := Free, work := s.work[w := WTrace(s.attached[w])])
    case WTrace(_) => s.(work := s.work[w := WClear])
    case WClear => s.(attached := s.attached[w := 0], work := s.work[w := WLoop])
    case _ => s
  }

  predicate SignalEnabled(s: State) {
    match s.sig
    case SDone => s.owner == Free
    case SExit => false
    case _ => true
  }

  function SignalNext(s: State): State
    requires SignalEnabled(s)
  {
    match s.sig
    case SIdle => s.(done := true, sig := SDone)  // outside the mutex
    case SDone => s.(owner := BySignal, sig := SLocked)
    case SLocked => s.(work := WakeConsumers(s.work), sig := SWokeConsumers)
    case SWokeConsumers => s.(prod := WakeProducer(s.prod), sig := SWokeAll)
    case SWokeAll => s.(owner := Free, sig := SExit)
    case SExit => s
  }

  /** The shape every reachable state has; a worker about to claim has something to claim. */
  ghost predicate Shape(s: State) {
    && |s.attached| == |s.work| == |s.claims| == s.n
    && forall w :: 0 <= w < s.n && (s.work[w] == WClaim || (s.work[w] == WTurn && !s.done)) ==> s.avail != []
  }

  predicate Enabled(s: State, step: Step) {
    match step
    case Producer(output) => ProducerEnabled(s, output)
    case ProducerTimeout => s.prod == PWait || s.prod == PWaitIdle
    case Worker(w) => WorkerEnabled(s, w)
    case WorkerTimeout(w) => w < |s.work| && s.work[w] == WWait
    case Signal => SignalEnabled(s)
  }

  ghost function Next(s: State, step: Step): State
    requires Shape(s) && Enabled(s, step)
  {
    match step
    case Producer(output) => ProducerNext(s, output)
    case ProducerTimeout => s.(prod := WakeProducer(s.prod))
    case Worker(w) => WorkerNext(s, w)
    case WorkerTimeout(w) => s.(work := s.work[w := WWoken])
    case Signal => SignalNext(s)
  }

  // ---------- the mutex ----------

  predicate ProducerHolds(pc: ProducerPc) {
    pc.PCheck? || pc.PTest? || pc.PTurn? || pc.PRead? || pc.PScan? || pc.PAfter? || pc.PUnlock?
  }

  predicate WorkerHolds(pc: WorkerPc) { pc.WCheck? || pc.WTest? || pc.WTurn? || pc.WClaim? || pc.WUnlock? }

  predicate SignalHolds(pc: SignalPc) { pc.SLocked? || pc.SWokeConsumers? || pc.SWokeAll? }

  ghost predicate MutexInv(s: State) {
    && (ProducerHolds(s.prod) <==> s.owner == ByProducer)
    && (forall w :: 0 <= w < |s.work| ==> (WorkerHolds(s.work[w]) <==> s.owner == ByWorker(w)))
    && (SignalHolds(s.sig) <==> s.owner == BySignal)
    && (s.owner.ByWorker? ==> s.owner.w < |s.work|)
  }

  // ---------- exclusive attachment ----------

  predicate Distinct(pids: seq<int>) {
    forall i, j :: 0 <= i < j < |pids| ==> pids[i] != pids[j]
  }

  /** Worker `w`'s slot is its pid from claim to clear, and empty otherwise. */
  predicate SlotOk(pc: WorkerPc, slot: int) {
    match pc
    case WTrace(pid) => slot == pid > 0
    case WUnlock => slot > 0
    case WClear => slot > 0
    case _ => slot == 0
  }

  ghost predicate ScanOk(s: State) {
    match s.prod
    case PRead(lines, _) => PositivePids(lines)
    case PScan(lines, _, pid, i) =>
      && PositivePids(lines) && pid > 0 && |s.avail| < s.n && i <= s.n
      && (forall j :: 0 <= j < i && j < |s.attached| ==> s.attached[j] != pid)
      && (forall j :: 0 <= j < i && j < |s.avail| ==> s.avail[j] != pid)
    case _ => true
  }

  /** No pid is queued or traced twice, nor both queued and traced; the queue never overflows. */
  ghost predicate Exclusive(s: State) {
    && |s.avail| <= s.n
    && PositivePids(s.avail) && Distinct(s.avail)
    && (forall v, w :: 0 <= v < w < |s.attached| && s.attached[v] != 0 ==> s.attached[v] != s.attached[w])
    && (forall w, i :: 0 <= w < |s.attached| && 0 <= i < |s.avail| ==> s.attached[w] != s.avail[i])
  }

  ghost predicate SlotsInv(s: State) {
    && |s.attached| == |s.work|
    && (forall w :: 0 <= w < |s.work| ==> SlotOk(s.work[w], s.attached[w]))
    && ScanOk(s)
  }

  // ---------- shutdown ----------

  /** Past a look at `done` that found it unset: may still go to sleep, or use its turn. */
  predicate ProducerUnaware(pc: ProducerPc) { pc.PTest? || pc.PRead? || pc.PScan? || pc.PAfter? }

  predicate WorkerUnaware(pc: WorkerPc) { pc.WTest? || pc.WClaim? }

  predicate ProducerWaits(pc: ProducerPc) { pc.PWait? || pc.PWaitIdle? }

  ghost predicate ShutdownInv(s: State) {
    && (s.done <==> s.sig != SIdle)
    && (s.sig != SIdle && s.sig != SDone ==>
          !ProducerUnaware(s.prod) && forall w :: 0 <= w < |s.work| ==> !WorkerUnaware(s.work[w]))
    && (s.sig == SWokeConsumers || s.sig == SWokeAll || s.sig == SExit ==>
          forall w :: 0 <= w < |s.work| ==> s.work[w] != WWait)
    && (s.sig == SWokeAll || s.sig == SExit ==> !ProducerWaits(s.prod))
  }

  /** On the way out after a last pid. */
  predicate Leaving(pc: WorkerPc) { pc.WUnlock? || pc.WTrace? || pc.WClear? || pc.WLoop? || pc.WExit? }

  ghost predicate ClaimsInv(s: State) {
    && |s.claims| == |s.work|
    && forall w :: 0 <= w < |s.work| ==>
         s.claims[w] <= 1 && (s.claims[w] == 1 ==> s.done && Leaving(s.work[w]))
  }

  ghost predicate Inv(s: State) {
    Shape(s) && MutexInv(s) && Exclusive(s) && SlotsInv(s) && ShutdownInv(s) && ClaimsInv(s)
  }

  lemma InitInv(n: nat)
    ensures Inv(Init(n))
  {
  }

  // ---------- producer steps ----------

  lemma ProducerShape(s: State, output: seq<int>)
    requires Inv(s) && ProducerEnabled(s, output)
    ensures Shape(ProducerNext(s, output)) && MutexInv(ProducerNext(s, output))
  {
    hide Exclusive, SlotsInv, ShutdownInv, ClaimsInv;
  }

  /** A full scan clears the pid for the queue, although workers may empty slots meanwhile. */
  lemma ProducerExclusive(s: State, output: seq<int>)
    requires Inv(s) && ProducerEnabled(s, output)
    ensures Exclusive(ProducerNext(s, output))
  {
    hide MutexInv, ShutdownInv, ClaimsInv;
    if s.prod.PScan? && s.prod.i >= s.n {
      var pid, avail := s.prod.pid, s.avail + [s.prod.pid];
      assert forall i :: 0 <= i < |avail| ==> avail[i] == if i < |s.avail| then s.avail[i] else pid;
    }
  }

  lemma ProducerScan(s: State, output: seq<int>)
    requires Inv(s) && ProducerEnabled(s, output)
    ensures ScanOk(ProducerNext(s, output))
  {
    hide MutexInv, Exclusive, ShutdownInv, ClaimsInv, SlotOk, WakeConsumers;
  }

  lemma ProducerSlots(s: State, output: seq<int>)
    requires Inv(s) && ProducerEnabled(s, output)
    ensures SlotsInv(ProducerNext(s, output))
  {
    hide MutexInv, Exclusive, ShutdownInv, ClaimsInv, ScanOk;
    ProducerScan(s, output);
    var s' := ProducerNext(s, output);
    assert s'.attached == s.attached && (s'.work == s.work || s'.work == WakeConsumers(s.work));
  }

  lemma ProducerShutdown(s: State, output: seq<int>)
    requires Inv(s) && ProducerEnabled(s, output)
    ensures ShutdownInv(ProducerNext(s, output)) && ClaimsInv(ProducerNext(s, output))
  {
    hide Exclusive, SlotsInv;
  }

  // ---------- worker steps ----------

  lemma WorkerShape(s: State, w: nat)
    requires Inv(s) && WorkerEnabled(s, w)
    ensures Shape(WorkerNext(s, w)) && MutexInv(WorkerNext(s, w))
  {
    hide Exclusive, SlotsInv, ShutdownInv, ClaimsInv;
  }

  lemma WorkerExclusive(s: State, w: nat)
    requires Inv(s) && WorkerEnabled(s, w)
    ensures Exclusive(WorkerNext(s, w))
  {
    hide ShutdownInv, ClaimsInv, MutexInv;
  }

  /** A worker changes slots under a scan only by emptying its own. */
  lemma WorkerSlots(s: State, w: nat)
    requires Inv(s) && WorkerEnabled(s, w)
    ensures SlotsInv(WorkerNext(s, w))
  {
    hide ShutdownInv, ClaimsInv;
  }

  lemma WorkerShutdown(s: State, w: nat)
    requires Inv(s) && WorkerEnabled(s, w)
    ensures ShutdownInv(WorkerNext(s, w)) && ClaimsInv(WorkerNext(s, w))
  {
    hide Exclusive, SlotsInv;
  }

  lemma SignalKeepsInv(s: State)
    requires Inv(s) && SignalEnabled(s)
    ensures Inv(SignalNext(s))
  {
  }

  lemma ProducerTimeoutKeepsInv(s: State)
    requires Inv(s) && Enabled(s, ProducerTimeout)
    ensures Inv(Next(s, ProducerTimeout))
  {
  }

  lemma WorkerTimeoutKeepsInv(s: State, w: nat)
    requires Inv(s) && Enabled(s, WorkerTimeout(w))
    ensures Inv(Next(s, WorkerTimeout(w)))
  {
  }

  lemma InvNext(s: State, step: Step)
    requires Inv(s) && Enabled(s, step)
    ensures Inv(Next(s, step))
  {
    match step
    case Producer(output) =>
      ProducerShape(s, output);
      ProducerExclusive(s, output);
      ProducerSlots(s, output);
      ProducerShutdown(s, output);
    case Worker(w) =>
      WorkerShape(s, w);
      WorkerExclusive(s, w);
      WorkerSlots(s, w);
      WorkerShutdown(s, w);
    case Signal => SignalKeepsInv(s);
    case ProducerTimeout => ProducerTimeoutKeepsInv(s);
    case WorkerTimeout(w) => WorkerTimeoutKeepsInv(s, w);
  }

  // ---------- whole runs ----------

  /** The state after any sequence of steps; steps that are not enabled do not happen. */
  ghost function After(s: State, run: seq<Step>): State
    requires Inv(s)
    ensures Inv(After(s, run))
    decreases |run|
  {
    if run == [] then s
    else if Enabled(s, run[0]) then InvNext(s, run[0]); After(Next(s, run[0]), run[1..])
    else After(s, run[1..])
  }

  ghost function Reached(n: nat, run: seq<Step>): State {
    InitInv(n);
    After(Init(n), run)
  }

  /** In every reachable state the occupied slots hold different pids, none of them queued; a worker
      from claim to clear occupies its slot, with the pid it traces; and the queue has no duplicates
      and stays within its array. */
  lemma ExclusiveAttachment(n: nat, run: seq<Step>)
    ensures var s := Reached(n, run);
            && |s.attached| == |s.work| == n
            && (forall v, w :: 0 <= v < w < n && s.attached[v] != 0 ==> s.attached[v] != s.attached[w])
            && (forall w :: 0 <= w < n ==> s.attached[w] !in s.avail)
            && (forall w :: 0 <= w < n && s.work[w].WTrace? ==> s.attached[w] == s.work[w].pid != 0)
            && (forall w :: 0 <= w < n && (s.work[w].WUnlock? || s.work[w].WClear?) ==> s.attached[w] != 0)
            && Distinct(s.avail) && |s.avail| <= n
  {
    hide After;
    InitInv(n);
    var s := Reached(n, run);
    AfterKeepsSize(Init(n), run);
    assert forall w :: 0 <= w < n ==> SlotOk(s.work[w], s.attached[w]);
  }

  /** So no two workers ever trace one pid at once. */
  lemma NoPidTracedTwice(n: nat, run: seq<Step>, v: nat, w: nat)
    requires v < w < |Reached(n, run).work|
    requires Reached(n, run).work[v].WTrace? && Reached(n, run).work[w].WTrace?
    ensures Reached(n, run).work[v].pid != Reached(n, run).work[w].pid
  {
    hide Reached;
    ExclusiveAttachment(n, run);
    assert Reached(n, run).attached[v] != 0;
  }

  lemma {:induction false} AfterKeepsSize(s: State, run: seq<Step>)
    requires Inv(s)
    ensures After(s, run).n == s.n
    decreases |run|
  {
    if run != [] {
      if Enabled(s, run[0]) {
        InvNext(s, run[0]);
        AfterKeepsSize(Next(s, run[0]), run[1..]);
      } else {
        AfterKeepsSize(s, run[1..]);
      }
    }
  }

  predicate SomeoneWaits(s: State) {
    ProducerWaits(s.prod) || exists w :: 0 <= w < |s.work| && s.work[w] == WWait
  }

  predicate Broadcast(s: State) { s.sig == SWokeAll || s.sig == SExit }

  lemma {:induction false} BroadcastLasts(s: State, more: seq<Step>)
    requires Inv(s) && Broadcast(s)
    ensures Broadcast(After(s, more))
    decreases |more|
  {
    if more != [] {
      if Enabled(s, more[0]) {
        InvNext(s, more[0]);
        BroadcastLasts(Next(s, more[0]), more[1..]);
      } else {
        BroadcastLasts(s, more[1..]);
      }
    }
  }

  /** Once both broadcasts are out, no thread sleeps on a condition variable, then or ever after. */
  lemma NoLostWakeup(n: nat, run: seq<Step>, more: seq<Step>)
    requires Broadcast(Reached(n, run))
    ensures !SomeoneWaits(After(Reached(n, run), more))
  {
    hide After;
    InitInv(n);
    BroadcastLasts(Reached(n, run), more);
  }

  /** How often worker `w` takes a pid in the course of a run. */
  ghost function Claims(s: State, run: seq<Step>, w: nat): nat
    requires Inv(s)
    decreases |run|
  {
    if run == [] then 0
    else if Enabled(s, run[0]) then
      InvNext(s, run[0]);
      (if run[0] == Worker(w) && s.work[w] == WClaim then 1 else 0) + Claims(Next(s, run[0]), run[1..], w)
    else Claims(s, run[1..], w)
  }

  lemma ClaimStep(s: State, step: Step, w: nat)
    requires Inv(s) && s.done && Enabled(s, step) && w < |s.work|
    ensures var s' := Next(s, step);
            && s'.done && |s'.work| == |s.work| && |s'.claims| == |s.claims|
            && s'.claims[w] == s.claims[w] + if step == Worker(w) && s.work[w] == WClaim then 1 else 0
  {
    hide MutexInv, Exclusive, SlotsInv, ShutdownInv, ClaimsInv;
  }

  lemma {:induction false} ClaimsAreCounted(s: State, run: seq<Step>, w: nat)
    requires Inv(s) && s.done && w < |s.work|
    ensures w < |After(s, run).claims| && After(s, run).claims[w] == s.claims[w] + Claims(s, run, w)
    decreases |run|
  {
    hide MutexInv, Exclusive, SlotsInv, ShutdownInv, ProducerNext, WorkerNext, SignalNext;
    if run != [] {
      if Enabled(s, run[0]) {
        InvNext(s, run[0]);
        ClaimStep(s, run[0], w);
        ClaimsAreCounted(Next(s, run[0]), run[1..], w);
      } else {
        ClaimsAreCounted(s, run[1..], w);
      }
    }
  }

  /** In whatever way a run goes on after `done` is set, each worker takes at most one more pid. */
  lemma AtMostOneMoreClaim(n: nat, run: seq<Step>, more: seq<Step>, w: nat)
    requires Reached(n, run).done && w < |Reached(n, run).work|
    ensures Claims(Reached(n, run), more, w) <= 1
  {
    hide After, Claims, MutexInv, Exclusive, SlotsInv, ShutdownInv, Init;
    InitInv(n);
    var s := Reached(n, run);
    ClaimsAreCounted(s, more, w);
    assert ClaimsInv(After(s, more));
  }

  // ---------- shutdown ends ----------

  /** Steps a thread can still take once `done` is set. */
  function ProducerRank(n: nat, pc: ProducerPc): nat {
    match pc
    case PExit => 0
    case PLoop => 1
    case PTurn => 1
    case PUnlock => 2
    case PCheck => 2
    case PLock => 3
    case PWoken => 3
    case PWokenIdle => 3
    case PWait => 4
    case PWaitIdle => 4
    case PTest => 5
    case PAfter(_) => 5
    case PRead(lines, _) => 6 + (n + 2) * |lines|
    case PScan(lines, _, _, i) => 7 + (n + 2) * |lines| + (if i <= n then n - i else 0)
  }

  function WorkerRank(pc: WorkerPc): nat {
    match pc
    case WExit => 0
    case WLoop => 1
    case WTurn => 1
    case WCheck => 2
    case WClear => 2
    case WLock => 3
    case WWoken => 3
    case WTrace(_) => 3
    case WWait => 4
    case WUnlock => 4
    case WTest => 5
    case WClaim => 5
  }

  function SignalRank(pc: SignalPc): nat {
    match pc
    case SIdle => 5
    case SDone => 4
    case SLocked => 3
    case SWokeConsumers => 2
    case SWokeAll => 1
    case SExit => 0
  }

  function WorkersRank(work: seq<WorkerPc>): nat {
    if work == [] then 0 else WorkerRank(work[0]) + WorkersRank(work[1..])
  }

  function Measure(s: State): nat {
    ProducerRank(s.n, s.prod) + WorkersRank(s.work) + SignalRank(s.sig)
  }

  lemma {:induction false} WorkersRankUpdate(work: seq<WorkerPc>, w: nat, pc: WorkerPc)
    requires w < |work|
    ensures WorkersRank(work[w := pc]) == WorkersRank(work) - WorkerRank(work[w]) + WorkerRank(pc)
  {
    if w == 0 {
      assert work[w := pc][1..] == work[1..];
    } else {
      assert work[w := pc][1..] == work[1..][w - 1 := pc];
      WorkersRankUpdate(work[1..], w - 1, pc);
    }
  }

  lemma {:induction false} WorkersRankWake(work: seq<WorkerPc>)
    ensures WorkersRank(WakeConsumers(work)) <= WorkersRank(work)
  {
    if work != [] {
      assert WakeConsumers(work)[1..] == WakeConsumers(work[1..]);
      WorkersRankWake(work[1..]);
    }
  }

  lemma ReadShrinks(n: nat, lines: seq<int>, found: nat, pid: int)
    requires lines != []
    ensures ProducerRank(n, PScan(lines[1..], found, pid, 0)) < ProducerRank(n, PRead(lines, found))
  {
    assert (n + 2) * |lines| == (n + 2) * |lines[1..]| + (n + 2);
  }

  lemma ProducerProgress(s: State, output: seq<int>)
    requires Inv(s) && s.done && ProducerEnabled(s, output)
    ensures Measure(ProducerNext(s, output)) < Measure(s)
  {
    hide WorkersRank, MutexInv, Exclusive, ShutdownInv, ClaimsInv;
    WorkersRankWake(s.work);
    if s.prod.PRead? && s.prod.lines != [] {
      ReadShrinks(s.n, s.prod.lines, s.prod.found, s.prod.lines[0]);
    }
  }

  lemma WorkerProgress(s: State, w: nat)
    requires Inv(s) && s.done && WorkerEnabled(s, w)
    ensures Measure(WorkerNext(s, w)) < Measure(s)
  {
    hide WorkersRank, MutexInv, Exclusive, SlotsInv, ShutdownInv, ClaimsInv;
    WorkersRankUpdate(s.work, w, WorkerNext(s, w).work[w]);
  }

  /** Once `done` is set every step of every thread, time-outs included, brings the end nearer. */
  lemma EveryStepNearsTheEnd(s: State, step: Step)
    requires Inv(s) && s.done && Enabled(s, step)
    ensures Next(s, step).done && Measure(Next(s, step)) < Measure(s)
  {
    hide WorkersRank, MutexInv, Exclusive, SlotsInv, ClaimsInv;
    match step
    case Producer(output) => ProducerProgress(s, output);
    case Worker(w) => WorkerProgress(s, w);
    case Signal => WorkersRankWake(s.work);
    case ProducerTimeout =>
    case WorkerTimeout(w) => WorkersRankUpdate(s.work, w, WWoken);
  }

  /** How many of the steps of a run happen. */
  ghost function Happening(s: State, run: seq<Step>): nat
    requires Inv(s)
    decreases |run|
  {
    if run == [] then 0
    else if Enabled(s, run[0]) then InvNext(s, run[0]); 1 + Happening(Next(s, run[0]), run[1..])
    else Happening(s, run[1..])
  }

  /** So a run after `done` is at most `Measure` steps long. */
  lemma {:induction false} ShutdownIsBounded(s: State, run: seq<Step>)
    requires Inv(s) && s.done
    ensures Happening(s, run) + Measure(After(s, run)) <= Measure(s)
    decreases |run|
  {
    hide Measure, MutexInv, Exclusive, SlotsInv, ShutdownInv, ClaimsInv, ProducerNext, WorkerNext, SignalNext;
    if run != [] {
      if Enabled(s, run[0]) {
        InvNext(s, run[0]);
        EveryStepNearsTheEnd(s, run[0]);
        ShutdownIsBounded(Next(s, run[0]), run[1..]);
      } else {
        ShutdownIsBounded(s, run[1..]);
      }
    }
  }

  predicate AllExited(s: State) {
    s.prod == PExit && s.sig == SExit && forall w :: 0 <= w < |s.work| ==> s.work[w] == WExit
  }

  /** And it cannot get stuck before all threads are out, even if no timed wait ever times out. */
  lemma ShutdownNeverStuck(s: State)
    requires Inv(s) && s.done && !AllExited(s)
    ensures Enabled(s, Producer([])) || Enabled(s, Signal) || exists w :: Enabled(s, Worker(w))
  {
    hide Exclusive, SlotsInv, ClaimsInv;
    if s.owner.ByWorker? {
      assert Enabled(s, Worker(s.owner.w));
    } else if s.owner == Free && s.sig == SExit && s.prod == PExit {
      var w :| 0 <= w < |s.work| && s.work[w] != WExit;
      assert Enabled(s, Worker(w));
    }
  }
}
