/**
 The call-graph accumulator of `event_callgrind.c`. Stacks come leaf first; the tables count
 samples per location and per caller/callee pair.
 */
module Callgrind {

  /** A location as printed; the tables are keyed by it. */
  type Loc = string

  const MAX_STACK_DEPTH: nat := 128

  datatype Callee = Callee(inclusive: nat, count: nat)
  datatype Caller = Caller(exclusive: nat, callees: map<Loc, Callee>)
  type Table = map<Loc, Caller>

  // ---------- reading the tables; what is not there counts as zero ----------

  function Excl(t: Table, l: Loc): nat { if l in t then t[l].exclusive else 0 }

  function Edge(t: Table, p: Loc, c: Loc): Callee {
    if p in t && c in t[p].callees then t[p].callees[c] else Callee(0, 0)
  }

  // ---------- the table updates of one frame ----------

  /** Find or add. */
  function WithCaller(t: Table, l: Loc): (r: Table)
    ensures r.Keys == t.Keys + {l}
    ensures forall x :: Excl(r, x) == Excl(t, x)
    ensures forall p, c :: Edge(r, p, c) == Edge(t, p, c)
  {
    if l in t then t else t[l := Caller(0, map[])]
  }

  function WithSample(t: Table, l: Loc): (r: Table)
    requires l in t
    ensures r.Keys == t.Keys
    ensures forall x :: Excl(r, x) == Excl(t, x) + if x == l then 1 else 0
    ensures forall p, c :: Edge(r, p, c) == Edge(t, p, c)
  {
    t[l := t[l].(exclusive := t[l].exclusive + 1)]
  }

  function WithCall(t: Table, p: Loc, c: Loc, changed: bool): (r: Table)
    requires p in t
    ensures r.Keys == t.Keys
    ensures forall x :: Excl(r, x) == Excl(t, x)
    ensures forall q, d :: Edge(r, q, d) ==
              if q != p || d != c then Edge(t, q, d)
              else Callee(Edge(t, p, c).inclusive + 1, Edge(t, p, c).count + if changed then 1 else 0)
  {
    var callee := Edge(t, p, c);
    var updated := Callee(callee.inclusive + 1, callee.count + if changed then 1 else 0);
    t[p := t[p].(callees := t[p].callees[c := updated])]
  }

  // ---------- plain counts over stacks ----------

  type Stack = seq<Loc>

  /** Positions from `i` on where `c` runs directly under `p`. */
  function Calls(s: Stack, i: nat, p: Loc, c: Loc): nat
    decreases |s| - i
  {
    if i + 1 >= |s| then 0 else Calls(s, i + 1, p, c) + if s[i] == c && s[i + 1] == p then 1 else 0
  }

  /** The frame at distance `i` from the leaf is not what it was in the previous stack. */
  predicate Changed(s: Stack, prev: Stack, i: nat)
    requires i < |s|
  {
    i >= |prev| || s[i] != prev[i]
  }

  /** Those of the positions whose frame changed. */
  function FreshCalls(s: Stack, prev: Stack, i: nat, p: Loc, c: Loc): (n: nat)
    ensures n <= Calls(s, i, p, c)
    decreases |s| - i
  {
    if i + 1 >= |s| then 0
    else FreshCalls(s, prev, i + 1, p, c) + if s[i] == c && s[i + 1] == p && Changed(s, prev, i) then 1 else 0
  }

  function IsLeaf(s: Stack, l: Loc): nat { if s != [] && s[0] == l then 1 else 0 }

  function IsRoot(s: Stack, l: Loc): nat { if s != [] && s[|s| - 1] == l then 1 else 0 }

  function Last(stacks: seq<Stack>): Stack { if stacks == [] then [] else stacks[|stacks| - 1] }

  function TotalCalls(stacks: seq<Stack>, p: Loc, c: Loc): nat {
    if stacks == [] then 0 else TotalCalls(stacks[..|stacks| - 1], p, c) + Calls(Last(stacks), 0, p, c)
  }

  function TotalFreshCalls(stacks: seq<Stack>, p: Loc, c: Loc): (n: nat)
    ensures n <= TotalCalls(stacks, p, c)
  {
    if stacks == [] then 0
    else
      var before := stacks[..|stacks| - 1];
      TotalFreshCalls(before, p, c) + FreshCalls(Last(stacks), Last(before), 0, p, c)
  }

  function TotalLeaves(stacks: seq<Stack>, l: Loc): nat {
    if stacks == [] then 0 else TotalLeaves(stacks[..|stacks| - 1], l) + IsLeaf(Last(stacks), l)
  }

  function TotalRoots(stacks: seq<Stack>, l: Loc): nat {
    if stacks == [] then 0 else TotalRoots(stacks[..|stacks| - 1], l) + IsRoot(Last(stacks), l)
  }

  /** The tables say exactly what counting over the stacks says. */
  ghost predicate Counts(t: Table, stacks: seq<Stack>) {
    && (forall l :: Excl(t, l) == TotalLeaves(stacks, l))
    && (forall p, c :: Edge(t, p, c) == Callee(TotalCalls(stacks, p, c), TotalFreshCalls(stacks, p, c)))
    && (forall i, j :: 0 <= i < |stacks| && 0 <= j < |stacks[i]| ==> stacks[i][j] in t)
  }

  /** What the digest loop has added once it has come down to position `i`. */
  ghost predicate Added(t0: Table, t: Table, s: Stack, prev: Stack, i: nat) {
    && t0.Keys <= t.Keys
    && (forall l :: Excl(t, l) == Excl(t0, l) + if i == 0 then IsLeaf(s, l) else 0)
    && (forall p, c :: Edge(t, p, c) ==
          Callee(Edge(t0, p, c).inclusive + Calls(s, i, p, c), Edge(t0, p, c).count + FreshCalls(s, prev, i, p, c)))
    && (forall j :: i <= j < |s| ==> s[j] in t)
  }

  /** One turn of the loop. */
  function DigestFrame(t: Table, s: Stack, prev: Stack, i: nat): Table
    requires i < |s| && (i + 1 < |s| ==> s[i + 1] in t)
  {
    var t1 := WithCaller(t, s[i]);
    var t2 := if i == 0 then WithSample(t1, s[i]) else t1;
    if i + 1 < |s| then WithCall(t2, s[i + 1], s[i], Changed(s, prev, i)) else t2
  }

  lemma DigestFrameAdds(t0: Table, t: Table, s: Stack, prev: Stack, i: nat)
    requires i < |s| && Added(t0, t, s, prev, i + 1)
    ensures Added(t0, DigestFrame(t, s, prev, i), s, prev, i)
  {
    hide Excl, Edge, WithCaller, WithSample, WithCall;
  }

  class Accumulator {
    var self: array<Loc>
    var selfLen: nat
    var prev: array<Loc>
    var prevLen: nat
    var callers: Table
    ghost var digested: seq<Stack>  // every stack that was ended, as kept

    ghost predicate Valid()
      reads this, self, prev
    {
      && self.Length == prev.Length == MAX_STACK_DEPTH && self != prev
      && selfLen <= MAX_STACK_DEPTH && prevLen <= MAX_STACK_DEPTH
      && prev[..prevLen] == Last(digested)
      && Counts(callers, digested)
    }

    constructor ()
      ensures Valid() && fresh(self) && fresh(prev) && digested == [] && selfLen == 0
    {
      self := new Loc[MAX_STACK_DEPTH];
      prev := new Loc[MAX_STACK_DEPTH];
      selfLen, prevLen := 0, 0;
      callers := map[];
      digested := [];
    }

    method StackBegin()
      requires Valid()
      modifies this`selfLen
      ensures Valid() && selfLen == 0
    {
      selfLen := 0;
    }

    /** Frames beyond the 128 nearest the leaf are dropped. */
    method IngestFrame(loc: Loc)
      requires Valid()
      modifies this`selfLen, self
      ensures Valid()
      ensures self[..selfLen] == if old(selfLen) < MAX_STACK_DEPTH then old(self[..selfLen]) + [loc]
                                 else old(self[..selfLen])
    {
      if selfLen >= MAX_STACK_DEPTH {
        return;
      }
      self[selfLen] := loc;
      selfLen := selfLen + 1;
    }

    /** One turn of the digest loop. */
    method DigestPosition(i: nat)
      requires self.Length == prev.Length == MAX_STACK_DEPTH
      requires i < selfLen <= MAX_STACK_DEPTH && prevLen <= MAX_STACK_DEPTH
      requires i + 1 < selfLen ==> self[i + 1] in callers
      modifies this`callers
      ensures callers == DigestFrame(old(callers), self[..selfLen], prev[..prevLen], i)
    {
      hide WithCaller, WithSample, WithCall;
      ghost var s, p := self[..selfLen], prev[..prevLen];
      assert s[i] == self[i] && (i + 1 < selfLen ==> s[i + 1] == self[i + 1]);
      assert i < prevLen ==> p[i] == prev[i];
      callers := WithCaller(callers, self[i]);
      if i == 0 {
        callers := WithSample(callers, self[i]);
      }
      if i + 1 < selfLen {
        callers := WithCall(callers, self[i + 1], self[i], i >= prevLen || self[i] != prev[i]);
      }
    }

    /** Walks from the root down, charging each caller/callee pair on the way. */
    method DigestStack()
      requires Valid()
      modifies this`callers
      ensures Added(old(callers), callers, self[..selfLen], prev[..prevLen], 0)
    {
      hide DigestFrame, Excl, Edge, Counts;
      ghost var s, p := self[..selfLen], prev[..prevLen];
      var i := selfLen;
      AddedNothingYet(callers, s, p);
      while i > 0
        invariant 0 <= i <= selfLen
        invariant Added(old(callers), callers, s, p, i)
      {
        i := i - 1;
        assert i + 1 < selfLen ==> s[i + 1] in callers;
        DigestFrameAdds(old(callers), callers, s, p, i);
        DigestPosition(i);
      }
    }

    /** STACK_END: digest, then remember the stack for the next comparison. */
    method StackEnd()
      requires Valid()
      modifies this, prev
      ensures Valid() && self == old(self) && prev == old(prev) && selfLen == 0
      ensures digested == old(digested) + [old(self[..selfLen])]
    {
      ghost var s, p, t0 := self[..selfLen], prev[..prevLen], callers;
      DigestStack();
      CountsExtend(t0, callers, digested, s);
      forall i | 0 <= i < selfLen {
        prev[i] := self[i];
      }
      prevLen := selfLen;
      selfLen := 0;
      digested := digested + [s];
      assert prev[..prevLen] == s;
    }

    /** A whole trace, leaf first: what counts is its 128 leaf-most frames. */
    method Sample(frames: seq<Loc>)
      requires Valid()
      modifies this, self, prev
      ensures Valid() && self == old(self) && prev == old(prev)
      ensures digested == old(digested) + [Cut(frames)]
    {
      StackBegin();
      for i := 0 to |frames|
        invariant Valid() && self == old(self) && prev == old(prev) && digested == old(digested)
        invariant self[..selfLen] == Cut(frames[..i])
      {
        IngestFrame(frames[i]);
        assert frames[..i + 1] == frames[..i] + [frames[i]];
      }
      assert frames[..|frames|] == frames;
      StackEnd();
    }
  }

  function Cut(frames: seq<Loc>): Stack {
    if |frames| <= MAX_STACK_DEPTH then frames else frames[..MAX_STACK_DEPTH]
  }

  lemma AddedNothingYet(t: Table, s: Stack, prev: Stack)
    ensures Added(t, t, s, prev, |s|)
  {
  }

  lemma CountsExtend(t0: Table, t: Table, stacks: seq<Stack>, s: Stack)
    requires Counts(t0, stacks) && Added(t0, t, s, Last(stacks), 0)
    ensures Counts(t, stacks + [s])
  {
    hide Excl, Edge, Calls, FreshCalls;
    var more := stacks + [s];
    assert more[..|more| - 1] == stacks;
  }

  // ---------- whole profiles ----------

  function CutAll(traces: seq<seq<Loc>>): seq<Stack> {
    if traces == [] then [] else CutAll(traces[..|traces| - 1]) + [Cut(traces[|traces| - 1])]
  }

  /** Any sequence of traces, leaf first: the tables hold the plain counts over them, no call is counted
      more often than it was sampled, and the flow through every location is conserved. */
  method Profile(traces: seq<seq<Loc>>) returns (t: Table)
    ensures forall l :: Excl(t, l) == TotalLeaves(CutAll(traces), l)
    ensures forall p, c :: Edge(t, p, c).inclusive == TotalCalls(CutAll(traces), p, c)
    ensures forall p, c :: Edge(t, p, c).count == TotalFreshCalls(CutAll(traces), p, c) <= Edge(t, p, c).inclusive
    ensures forall l :: TotalRoots(CutAll(traces), l) + SumOver(t.Keys, p => Edge(t, p, l).inclusive) ==
                        Excl(t, l) + SumOver(t.Keys, c => Edge(t, l, c).inclusive)
  {
    hide Excl, Edge, SumOver, TotalLeaves, TotalCalls, TotalRoots, TotalFreshCalls, Cut;
    var a := new Accumulator();
    for i := 0 to |traces|
      invariant a.Valid() && fresh(a) && fresh(a.self) && fresh(a.prev) && a.digested == CutAll(traces[..i])
    {
      a.Sample(traces[i]);
      assert traces[..i + 1][..i] == traces[..i];
    }
    assert traces[..|traces|] == traces;
    t := a.callers;
    forall l
      ensures TotalRoots(a.digested, l) + SumOver(t.Keys, p => Edge(t, p, l).inclusive) ==
              Excl(t, l) + SumOver(t.Keys, c => Edge(t, l, c).inclusive)
    {
      FlowConservation(t, a.digested, l);
    }
    forall p, c
      ensures Edge(t, p, c).count <= Edge(t, p, c).inclusive
    {
      CountWithinInclusive(t, a.digested, p, c);
    }
  }

  // ---------- the call count, and what the file's own drawing of it says ----------

  /** The drawing compares frames at the same distance from the root instead. */
  predicate ChangedFromRoot(s: Stack, prev: Stack, i: nat)
    requires i < |s|
  {
    var fromRoot := |s| - 1 - i;
    fromRoot >= |prev| || s[i] != prev[|prev| - 1 - fromRoot]
  }

  function FreshCallsFromRoot(s: Stack, prev: Stack, i: nat, p: Loc, c: Loc): nat
    decreases |s| - i
  {
    if i + 1 >= |s| then 0
    else
      FreshCallsFromRoot(s, prev, i + 1, p, c) +
      if s[i] == c && s[i + 1] == p && ChangedFromRoot(s, prev, i) then 1 else 0
  }

  /** For stacks of equal depth the two ways of counting agree. */
  lemma {:induction false} EqualDepthCountsAgree(s: Stack, prev: Stack, i: nat, p: Loc, c: Loc)
    requires |s| == |prev|
    ensures FreshCalls(s, prev, i, p, c) == FreshCallsFromRoot(s, prev, i, p, c)
    decreases |s| - i
  {
    if i + 1 < |s| {
      EqualDepthCountsAgree(s, prev, i + 1, p, c);
    }
  }

  /** So they do, trivially, for a stack without calls and after an empty stack. */
  lemma {:induction false} TrivialCountsAgree(s: Stack, prev: Stack, i: nat, p: Loc, c: Loc)
    requires |s| <= 1 || prev == []
    ensures FreshCalls(s, prev, i, p, c) == FreshCallsFromRoot(s, prev, i, p, c)
    decreases |s| - i
  {
    if i + 1 < |s| {
      TrivialCountsAgree(s, prev, i + 1, p, c);
    }
  }

  /** A location that is not in the stack: longer than any in it. */
  function Foreign(s: Stack): (l: Loc)
    ensures forall i :: 0 <= i < |s| ==> |s[i]| < |l|
  {
    if s == [] then "x"
    else
      var l := Foreign(s[1..]);
      if |s[0]| < |l| then l else s[0] + "x"
  }

  /** A previous stack that shares one frame with `s`, at distance `j` from the leaf. */
  function SharingOne(s: Stack, m: nat, j: nat): (prev: Stack)
    requires j < |s| && j < m
    ensures |prev| == m && prev[j] == s[j]
    ensures forall i, k :: 0 <= i < |s| && 0 <= k < m && k != j ==> s[i] != prev[k]
  {
    var foreign := Foreign(s);
    assert forall i :: 0 <= i < |s| ==> s[i] != foreign;
    seq(m, k => if k == j then s[j] else foreign)
  }

  /** Seen from the root every call is fresh if the shared frame is not where the root expects it. */
  lemma {:induction false} AllFreshFromRoot(s: Stack, prev: Stack, i: nat, p: Loc, c: Loc)
    requires forall k :: i <= k < |s| - 1 ==> ChangedFromRoot(s, prev, k)
    ensures FreshCallsFromRoot(s, prev, i, p, c) == Calls(s, i, p, c)
    decreases |s| - i
  {
    if i + 1 < |s| {
      AllFreshFromRoot(s, prev, i + 1, p, c);
    }
  }

  /** Seen from the leaf the call at an unchanged frame is not. */
  lemma {:induction false} OneNotFresh(s: Stack, prev: Stack, i: nat, j: nat)
    requires i <= j < |s| - 1 && !Changed(s, prev, j)
    ensures FreshCalls(s, prev, i, s[j + 1], s[j]) < Calls(s, i, s[j + 1], s[j])
    decreases j - i
  {
    if i < j {
      OneNotFresh(s, prev, i + 1, j);
    }
  }

  ghost predicate CountsAgree(s: Stack, prev: Stack) {
    forall p, c :: FreshCalls(s, prev, 0, p, c) == FreshCallsFromRoot(s, prev, 0, p, c)
  }

  /** Stacks of different depths, with a call to count, can tell the two ways apart. */
  lemma UnequalDepthsDiffer(s: Stack, m: nat) returns (prev: Stack)
    requires m != |s| && m != 0 && |s| > 1
    ensures |prev| == m && !CountsAgree(s, prev)
  {
    hide FreshCalls, FreshCallsFromRoot, Calls, SharingOne;
    var j := if m < |s| then m - 1 else 0;
    prev := SharingOne(s, m, j);
    forall k | 0 <= k < |s| - 1
      ensures ChangedFromRoot(s, prev, k)
    {
      assert |s| - 1 - k < m ==> m - 1 - (|s| - 1 - k) != j;
    }
    AllFreshFromRoot(s, prev, 0, s[j + 1], s[j]);
    OneNotFresh(s, prev, 0, j);
  }

  /** The code counts what the drawing counts, whatever the frames, exactly when the previous stack
      was equally deep or empty, or there is no call to count. */
  lemma CountsAgreeIffDepths(s: Stack, m: nat)
    ensures (forall prev: Stack :: |prev| == m ==> CountsAgree(s, prev)) <==> m == |s| || m == 0 || |s| <= 1
  {
    hide FreshCalls, FreshCallsFromRoot;
    if m == |s| || m == 0 || |s| <= 1 {
      forall prev: Stack, p, c | |prev| == m
        ensures FreshCalls(s, prev, 0, p, c) == FreshCallsFromRoot(s, prev, 0, p, c)
      {
        if m == |s| {
          EqualDepthCountsAgree(s, prev, 0, p, c);
        } else {
          TrivialCountsAgree(s, prev, 0, p, c);
        }
      }
    } else {
      var prev := UnequalDepthsDiffer(s, m);
    }
  }

  /** After a mere return they do not: the drawing's second example, where it counts no call. */
  lemma ReturnCountsAsCall()
    ensures var prev, s := ["c", "b", "a", "main"], ["b", "a", "main"];
            FreshCalls(s, prev, 0, "a", "b") == 1 && FreshCallsFromRoot(s, prev, 0, "a", "b") == 0
  {
    var prev, s := ["c", "b", "a", "main"], ["b", "a", "main"];
    assert FreshCalls(s, prev, 2, "a", "b") == 0 == FreshCallsFromRoot(s, prev, 2, "a", "b");
    assert FreshCalls(s, prev, 1, "a", "b") == 0 == FreshCallsFromRoot(s, prev, 1, "a", "b");
  }

  // ---------- conservation of flow ----------

  ghost function SumOver(keys: set<Loc>, f: Loc -> nat): nat
    decreases |keys|
  {
    if keys == {} then 0
    else
      var k :| k in keys;
      f(k) + SumOver(keys - {k}, f)
  }

  lemma SumPicks(keys: set<Loc>, f: Loc -> nat) returns (k: Loc)
    requires keys != {}
    ensures k in keys && SumOver(keys, f) == f(k) + SumOver(keys - {k}, f)
  {
    k :| k in keys && SumOver(keys, f) == f(k) + SumOver(keys - {k}, f);
  }

  lemma {:induction false} SumWithout(keys: set<Loc>, f: Loc -> nat, l: Loc)
    requires l in keys
    ensures SumOver(keys, f) == f(l) + SumOver(keys - {l}, f)
    decreases |keys|
  {
    hide SumOver;
    var k := SumPicks(keys, f);
    if k != l {
      SumWithout(keys - {k}, f, l);
      SumWithout(keys - {l}, f, k);
      assert keys - {k} - {l} == keys - {l} - {k};
    }
  }

  lemma {:induction false} SumSame(keys: set<Loc>, f: Loc -> nat, g: Loc -> nat)
    requires forall k :: k in keys ==> f(k) == g(k)
    ensures SumOver(keys, f) == SumOver(keys, g)
    decreases |keys|
  {
    if keys != {} {
      var k := SumPicks(keys, f);
      SumWithout(keys, g, k);
      SumSame(keys - {k}, f, g);
    } else {
      assert SumOver(keys, f) == 0 == SumOver(keys, g);
    }
  }

  lemma {:induction false} SumAdds(keys: set<Loc>, f: Loc -> nat, g: Loc -> nat, h: Loc -> nat)
    requires forall k :: k in keys ==> h(k) == f(k) + g(k)
    ensures SumOver(keys, h) == SumOver(keys, f) + SumOver(keys, g)
    decreases |keys|
  {
    if keys != {} {
      var k := SumPicks(keys, h);
      SumWithout(keys, f, k);
      SumWithout(keys, g, k);
      SumAdds(keys - {k}, f, g, h);
    } else {
      assert SumOver(keys, h) == SumOver(keys, f) == SumOver(keys, g) == 0;
    }
  }

  lemma {:induction false} SumZero(keys: set<Loc>, f: Loc -> nat)
    requires forall k :: k in keys ==> f(k) == 0
    ensures SumOver(keys, f) == 0
    decreases |keys|
  {
    if keys != {} {
      var k := SumPicks(keys, f);
      SumZero(keys - {k}, f);
    }
  }

  lemma SumOne(keys: set<Loc>, l: Loc, f: Loc -> nat)
    requires l in keys && f(l) == 1 && forall k :: k in keys && k != l ==> f(k) == 0
    ensures SumOver(keys, f) == 1
  {
    hide SumOver;
    SumWithout(keys, f, l);
    SumZero(keys - {l}, f);
  }

  /** Calls into `l` and calls out of `l`, summed over everyone at the other end. */
  ghost function CallsIn(keys: set<Loc>, s: Stack, i: nat, l: Loc): nat { SumOver(keys, p => Calls(s, i, p, l)) }

  ghost function CallsOut(keys: set<Loc>, s: Stack, i: nat, l: Loc): nat { SumOver(keys, c => Calls(s, i, l, c)) }

  lemma CallsInStep(keys: set<Loc>, s: Stack, i: nat, l: Loc)
    requires i + 1 < |s| && s[i + 1] in keys
    ensures CallsIn(keys, s, i, l) == CallsIn(keys, s, i + 1, l) + if s[i] == l then 1 else 0
  {
    hide SumOver;
    var here := p => if s[i] == l && s[i + 1] == p then 1 else 0;
    SumAdds(keys, p => Calls(s, i + 1, p, l), here, p => Calls(s, i, p, l));
    if s[i] == l { SumOne(keys, s[i + 1], here); } else { SumZero(keys, here); }
  }

  lemma CallsOutStep(keys: set<Loc>, s: Stack, i: nat, l: Loc)
    requires i + 1 < |s| && s[i] in keys
    ensures CallsOut(keys, s, i, l) == CallsOut(keys, s, i + 1, l) + if s[i + 1] == l then 1 else 0
  {
    hide SumOver;
    var here := c => if s[i] == c && s[i + 1] == l then 1 else 0;
    SumAdds(keys, c => Calls(s, i + 1, l, c), here, c => Calls(s, i, l, c));
    if s[i + 1] == l { SumOne(keys, s[i], here); } else { SumZero(keys, here); }
  }

  /** Every frame is entered from above or is the root, and goes below or is the leaf. */
  lemma {:induction false} StackFlow(keys: set<Loc>, s: Stack, i: nat, l: Loc)
    requires i < |s| && forall j :: 0 <= j < |s| ==> s[j] in keys
    ensures IsRoot(s, l) + CallsIn(keys, s, i, l) == (if s[i] == l then 1 else 0) + CallsOut(keys, s, i, l)
    decreases |s| - i
  {
    hide SumOver;
    if i + 1 < |s| {
      StackFlow(keys, s, i + 1, l);
      CallsInStep(keys, s, i, l);
      CallsOutStep(keys, s, i, l);
    } else {
      SumZero(keys, p => Calls(s, i, p, l));
      SumZero(keys, c => Calls(s, i, l, c));
    }
  }

  lemma {:induction false} StacksFlow(keys: set<Loc>, stacks: seq<Stack>, l: Loc)
    requires forall i, j :: 0 <= i < |stacks| && 0 <= j < |stacks[i]| ==> stacks[i][j] in keys
    ensures TotalRoots(stacks, l) + SumOver(keys, p => TotalCalls(stacks, p, l)) ==
            TotalLeaves(stacks, l) + SumOver(keys, c => TotalCalls(stacks, l, c))
  {
    hide SumOver, Calls;
    if stacks == [] {
      SumZero(keys, p => TotalCalls(stacks, p, l));
      SumZero(keys, c => TotalCalls(stacks, l, c));
    } else {
      var before, s := stacks[..|stacks| - 1], Last(stacks);
      StacksFlow(keys, before, l);
      SumAdds(keys, p => TotalCalls(before, p, l), p => Calls(s, 0, p, l), p => TotalCalls(stacks, p, l));
      SumAdds(keys, c => TotalCalls(before, l, c), c => Calls(s, 0, l, c), c => TotalCalls(stacks, l, c));
      if s == [] {
        NoCallsInEmpty(keys, l);
      } else {
        StackFlow(keys, s, 0, l);
      }
    }
  }

  lemma NoCallsInEmpty(keys: set<Loc>, l: Loc)
    ensures SumOver(keys, p => Calls([], 0, p, l)) == 0 == SumOver(keys, c => Calls([], 0, l, c))
  {
    SumZero(keys, p => Calls([], 0, p, l));
    SumZero(keys, c => Calls([], 0, l, c));
  }

  /** In the tables, for every location and however recursive the stacks: times it was the root plus
      incoming inclusive samples equals exclusive samples plus outgoing inclusive samples. */
  lemma FlowConservation(t: Table, stacks: seq<Stack>, l: Loc)
    requires Counts(t, stacks)
    ensures TotalRoots(stacks, l) + SumOver(t.Keys, p => Edge(t, p, l).inclusive) ==
            Excl(t, l) + SumOver(t.Keys, c => Edge(t, l, c).inclusive)
  {
    hide SumOver, Excl, Edge, TotalCalls, TotalLeaves, TotalRoots, TotalFreshCalls;
    StacksFlow(t.Keys, stacks, l);
    SumSame(t.Keys, p => TotalCalls(stacks, p, l), p => Edge(t, p, l).inclusive);
    SumSame(t.Keys, c => TotalCalls(stacks, l, c), c => Edge(t, l, c).inclusive);
  }

  /** A call is never counted more often than it was sampled. */
  lemma CountWithinInclusive(t: Table, stacks: seq<Stack>, p: Loc, c: Loc)
    requires Counts(t, stacks)
    ensures Edge(t, p, c).count <= Edge(t, p, c).inclusive
  {
    assert Edge(t, p, c) == Callee(TotalCalls(stacks, p, c), TotalFreshCalls(stacks, p, c));
  }
}
