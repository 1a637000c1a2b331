/**
 The sampling loop of `main_pid` (`phpspy.c`) and its trace limit, alone and with several calls
 running at once on behalf of the worker pool.
 */
module RunLoop {

  /** The bits of a trace's return code. */
  datatype Outcome = Outcome(err: bool, pidDead: bool, truncated: bool, skipped: bool)

  /** `rv == PHPSPY_OK || rv == PHPSPY_ERR_TRUNCATED` */
  predicate Countable(o: Outcome) { !o.err && !o.pidDead && !o.skipped }

  /** One turn of the loop: how the trace went, and whether the time limit has passed. */
  datatype Turn = Turn(outcome: Outcome, timeUp: bool)

  function CountableIn(turns: seq<Turn>): nat {
    if turns == [] then 0
    else CountableIn(turns[..|turns| - 1]) + if Countable(turns[|turns| - 1].outcome) then 1 else 0
  }

  lemma CountableSnoc(turns: seq<Turn>, used: nat)
    requires used < |turns|
    ensures CountableIn(turns[..used + 1]) ==
            CountableIn(turns[..used]) + if Countable(turns[used].outcome) then 1 else 0
  {
    assert turns[..used + 1][..used] == turns[..used];
  }

  /** One process: `turns` are the turns there would be time for before `done` is set. Exactly the
      complete traces are counted, and the loop stops on the one that reaches the limit. */
  method MainPid(limit: nat, turns: seq<Turn>) returns (traceCount: nat, used: nat)
    ensures used <= |turns|
    ensures limit == 0 ==> traceCount == 0
    ensures limit > 0 ==> traceCount == CountableIn(turns[..used]) <= limit
    ensures limit > 0 && traceCount == limit ==> used > 0 && CountableIn(turns[..used - 1]) == limit - 1
    ensures used < |turns| ==>
              used > 0 && (turns[used - 1].outcome.pidDead || turns[used - 1].timeUp || traceCount == limit > 0)
    ensures forall i :: 0 <= i < used - 1 ==> !turns[i].outcome.pidDead && !turns[i].timeUp
  {
    traceCount, used := 0, 0;
    while used < |turns|
      invariant used <= |turns|
      invariant limit == 0 ==> traceCount == 0
      invariant limit > 0 ==> traceCount == CountableIn(turns[..used]) < limit
      invariant forall i :: 0 <= i < used ==> !turns[i].outcome.pidDead && !turns[i].timeUp
    {
      var turn := turns[used];
      CountableSnoc(turns, used);
      used := used + 1;
      if turn.outcome.pidDead {
        break;
      }
      if limit > 0 && Countable(turn.outcome) {
        traceCount := traceCount + 1;
        if traceCount >= limit {
          break;
        }
      }
      if turn.timeUp {
        break;
      }
    }
  }

  // ---------- many calls at once ----------

  /** A call of main_pid: at the top of its loop; past its increment, which brought the count to the
      limit or not; or over, because of the limit or for another reason. */
  datatype Call = Running | Counted(reached: bool) | Ended(onLimit: bool)

  datatype State = State(limit: nat, traceCount: nat, calls: seq<Call>)

  datatype Step = Start | Trace(c: nat, outcome: Outcome) | Test(c: nat) | Stop(c: nat)

  predicate Enabled(s: State, step: Step) {
    match step
    case Start => true
    case Trace(c, _) => c < |s.calls| && s.calls[c] == Running
    case Test(c) => c < |s.calls| && s.calls[c].Counted?
    case Stop(c) => c < |s.calls| && s.calls[c] == Running
  }

  /** The atomic increment and the test that follows it are separate steps. */
  function Next(s: State, step: Step): State
    requires Enabled(s, step)
  {
    match step
    case Start => s.(calls := s.calls + [Running])
    case Trace(c, o) =>
      if o.pidDead then s.(calls := s.calls[c := Ended(false)])
      else if s.limit > 0 && Countable(o) then
        s.(traceCount := s.traceCount + 1, calls := s.calls[c := Counted(s.traceCount + 1 >= s.limit)])
      else s
    case Test(c) =>
      s.(calls := s.calls[c := if s.traceCount >= s.limit then Ended(true) else Running])
    case Stop(c) => s.(calls := s.calls[c := Ended(false)])
  }

  /** The call has stopped on the limit, or is bound to. */
  predicate AtLimit(call: Call) { call == Counted(true) || call == Ended(true) }

  function StoppedOnLimit(calls: seq<Call>): nat {
    if calls == [] then 0
    else StoppedOnLimit(calls[..|calls| - 1]) + if AtLimit(calls[|calls| - 1]) then 1 else 0
  }

  lemma {:induction false} StoppedUpdate(calls: seq<Call>, c: nat, call: Call)
    requires c < |calls|
    ensures StoppedOnLimit(calls[c := call]) ==
            StoppedOnLimit(calls) - (if AtLimit(calls[c]) then 1 else 0) + (if AtLimit(call) then 1 else 0)
  {
    var n := |calls| - 1;
    if c == n {
      assert calls[c := call][..n] == calls[..n];
    } else {
      assert calls[c := call][..n] == calls[..n][c := call];
      StoppedUpdate(calls[..n], c, call);
    }
  }

  ghost predicate Inv(s: State) {
    && (s.limit > 0 ==> s.traceCount <= s.limit - 1 + StoppedOnLimit(s.calls))
    && (s.limit == 0 ==> s.traceCount == 0)
    && forall c :: 0 <= c < |s.calls| && s.calls[c] == Counted(true) ==> s.traceCount >= s.limit
  }

  lemma InvNext(s: State, step: Step)
    requires Inv(s) && Enabled(s, step)
    ensures Inv(Next(s, step))
  {
    var s' := Next(s, step);
    match step
    case Start => assert s'.calls[..|s.calls|] == s.calls;
    case Trace(c, _) => StoppedUpdate(s.calls, c, s'.calls[c]);
    case Test(c) => StoppedUpdate(s.calls, c, s'.calls[c]);
    case Stop(c) => StoppedUpdate(s.calls, c, s'.calls[c]);
  }

  /** Any interleaving of any number of calls; steps that are not enabled do not happen. */
  function After(limit: nat, run: seq<Step>): State {
    if run == [] then State(limit, 0, [])
    else
      var s, step := After(limit, run[..|run| - 1]), run[|run| - 1];
      if Enabled(s, step) then Next(s, step) else s
  }

  lemma {:induction false} InvAlways(limit: nat, run: seq<Step>)
    ensures Inv(After(limit, run)) && After(limit, run).limit == limit
  {
    if run != [] {
      InvAlways(limit, run[..|run| - 1]);
      var s, step := After(limit, run[..|run| - 1]), run[|run| - 1];
      if Enabled(s, step) {
        InvNext(s, step);
      }
    }
  }

  /** The limit is overshot by at most the calls that stopped on it, less one. */
  lemma TraceLimit(limit: nat, run: seq<Step>)
    requires limit > 0
    ensures After(limit, run).traceCount <= limit - 1 + StoppedOnLimit(After(limit, run).calls)
  {
    InvAlways(limit, run);
  }
}
