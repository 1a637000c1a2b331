/**
 Walking a PHP stack in frozen remote memory (`stack_collect`, `trace_stack` in `phpspy_trace.c`).
 With `-N` the frame pointers are collected first and the middle of the stack may be left out;
 without it frames are emitted while walking.
 */
module StackWalk {
  import Text

  const MAX_STACK_WALK: nat := 1024

  type Option<+T> = Text.Option<T>
  type Addr = nat  // 0 is NULL
  type Loc = string

  /** What can be read: the link to the caller's frame, and the frame as a whole. */
  datatype Memory = Memory(link: map<Addr, Addr>, frame: map<Addr, Loc>) {
    predicate Readable(a: Addr) { a in link && a in frame }

    function At(a: Addr): Loc
      requires Readable(a)
    {
      frame[a]
    }
  }

  datatype Event = Frame(depth: nat, loc: Loc) | Elided(depth: nat, count: nat)

  // ---------- the chain of frames ----------

  /** At most `limit` frame pointers from `a` on; `None` if a link cannot be read. */
  function Chain(mem: Memory, a: Addr, limit: nat): (r: Option<seq<Addr>>)
    ensures r.Some? ==> |r.value| <= limit
    decreases limit
  {
    if a == 0 || limit == 0 then Text.Some([])
    else if a !in mem.link then Text.None
    else match Chain(mem, mem.link[a], limit - 1)
      case None => Text.None
      case Some(rest) => Text.Some([a] + rest)
  }

  /** A chain follows the links from its start, and ends at a frame without caller or at the limit. */
  lemma {:induction false} ChainFollowsLinks(mem: Memory, a: Addr, limit: nat)
    requires Chain(mem, a, limit).Some?
    ensures var c := Chain(mem, a, limit).value;
            && (c == [] <==> a == 0 || limit == 0)
            && (c != [] ==> c[0] == a)
            && (forall i :: 0 <= i < |c| ==> c[i] != 0 && c[i] in mem.link)
            && (forall i :: 0 <= i < |c| - 1 ==> c[i + 1] == mem.link[c[i]])
            && (0 < |c| < limit ==> mem.link[c[|c| - 1]] == 0)
    decreases limit
  {
    if a != 0 && limit > 0 {
      ChainFollowsLinks(mem, mem.link[a], limit - 1);
    }
  }

  /** Any chain, cyclic ones included, is collected up to the walk limit. */
  method StackCollect(mem: Memory, start: Addr) returns (ok: bool, ptrs: seq<Addr>)
    ensures ok <==> Chain(mem, start, MAX_STACK_WALK).Some?
    ensures ok ==> Chain(mem, start, MAX_STACK_WALK) == Text.Some(ptrs)
  {
    ptrs := [];
    var remote := start;
    ghost var all := Chain(mem, start, MAX_STACK_WALK);
    assert all.Some? ==> [] + all.value == all.value;
    while remote != 0
      invariant |ptrs| <= MAX_STACK_WALK
      invariant var rest := Chain(mem, remote, MAX_STACK_WALK - |ptrs|);
                all == if rest.Some? then Text.Some(ptrs + rest.value) else Text.None
      decreases MAX_STACK_WALK - |ptrs|, remote
    {
      if |ptrs| >= MAX_STACK_WALK {
        break;
      }
      if remote !in mem.link {
        return false, ptrs;
      }
      ghost var rest := Chain(mem, mem.link[remote], MAX_STACK_WALK - |ptrs| - 1);
      if rest.Some? {
        Text.ConcatAssoc(ptrs, [remote], rest.value);
      }
      ptrs := ptrs + [remote];
      remote := mem.link[remote];
    }
    assert ptrs + [] == ptrs;
    ok := true;
  }

  // ---------- what should be emitted ----------

  /** Frames with their distance from the leaf, the first being at `depth`. */
  ghost function Frames(mem: Memory, ptrs: seq<Addr>, depth: nat): (r: seq<Event>)
    requires AllReadable(mem, ptrs)
    ensures |r| == |ptrs|
    ensures forall i :: 0 <= i < |r| ==> r[i] == Frame(depth + i, mem.At(ptrs[i]))
  {
    seq(|ptrs|, i requires 0 <= i < |ptrs| => Frame(depth + i, mem.At(ptrs[i])))
  }

  function Max0(n: int): nat { if n < 0 then 0 else n }

  ghost predicate AllReadable(mem: Memory, ptrs: seq<Addr>) {
    forall i :: 0 <= i < |ptrs| ==> mem.Readable(ptrs[i])
  }

  /** Index `i` of `total` falls between the frames kept from the leaf and those kept from the root. */
  predicate Skipped(total: nat, n: int, outer: nat, i: nat) {
    Max0(n) + outer < total && Max0(n) <= i < total - outer
  }

  /** Every frame that is to be shown can be read. */
  ghost predicate KeptReadable(mem: Memory, ptrs: seq<Addr>, n: int, outer: nat) {
    forall i :: 0 <= i < |ptrs| && !Skipped(|ptrs|, n, outer, i) ==> mem.Readable(ptrs[i])
  }

  /** The first `n` frames, one marker, the last `outer` frames; all frames if nothing is left between. */
  ghost function Shown(mem: Memory, ptrs: seq<Addr>, n: int, outer: nat): seq<Event>
    requires KeptReadable(mem, ptrs, n, outer)
  {
    var inner, total := Max0(n), |ptrs|;
    if inner + outer < total then
      Frames(mem, ptrs[..inner], 0) + [Elided(inner, total - outer - inner)]
      + Frames(mem, ptrs[total - outer..], total - outer)
    else Frames(mem, ptrs, 0)
  }

  /** The `-N` branch of `trace_stack`. */
  method TraceCollected(mem: Memory, start: Addr, n: int, outer: nat)
    returns (ok: bool, events: seq<Event>, depth: nat)
    requires n >= -1
    ensures var c := Chain(mem, start, MAX_STACK_WALK);
            && (c.None? ==> events == [])
            && (ok <==> c.Some? && KeptReadable(mem, c.value, n, outer))
            && (ok ==> depth == |c.value| && events == Shown(mem, c.value, n, outer))
  {
    hide Chain;
    events, depth := [], 0;
    var ptrs;
    ok, ptrs := StackCollect(mem, start);
    if !ok {
      return;
    }
    var total := |ptrs|;
    var keepInner := if n >= 0 then n else 0;
    var keepOuterFrom := keepInner;
    var numElided := 0;
    if keepInner + outer < total {
      keepOuterFrom := total - outer;
      numElided := keepOuterFrom - keepInner;
    }
    ok, events := EmitKept(mem, ptrs, keepInner, keepOuterFrom, numElided);
    if !ok {
      var i :| 0 <= i < |ptrs| && !(keepInner <= i < keepOuterFrom) && !mem.Readable(ptrs[i]);
      assert !Skipped(total, n, outer, i);
      return;
    }
    UptoAll(mem, ptrs, n, outer, keepOuterFrom);
    depth := total;
  }

  /** The emitting loop. */
  method EmitKept(mem: Memory, ptrs: seq<Addr>, keepInner: nat, keepOuterFrom: nat, numElided: nat)
    returns (ok: bool, events: seq<Event>)
    requires keepInner + numElided == keepOuterFrom
    ensures ok <==> forall j :: 0 <= j < |ptrs| && !(keepInner <= j < keepOuterFrom) ==> mem.Readable(ptrs[j])
    ensures ok ==> events == Upto(mem, ptrs, keepInner, keepOuterFrom, |ptrs|)
  {
    events := [];
    var i, total := 0, |ptrs|;
    while i < total
      invariant 0 <= i <= total
      invariant forall j :: 0 <= j < i && !(keepInner <= j < keepOuterFrom) ==> mem.Readable(ptrs[j])
      invariant events == Upto(mem, ptrs, keepInner, keepOuterFrom, i)
    {
      if i == keepInner && numElided > 0 {
        events := events + [Elided(i, numElided)];
      }
      if !(keepInner <= i < keepOuterFrom) {
        if !mem.Readable(ptrs[i]) {
          return false, events;
        }
        events := events + [Frame(i, mem.At(ptrs[i]))];
      }
      UptoStep(mem, ptrs, keepInner, keepOuterFrom, i);
      i := i + 1;
    }
    ok := true;
  }

  /** What the emitting loop has emitted before index `i`. */
  ghost function Upto(mem: Memory, ptrs: seq<Addr>, inner: nat, outerFrom: nat, i: nat): seq<Event>
    requires i <= |ptrs| && inner <= outerFrom
    requires forall j :: 0 <= j < i && !(inner <= j < outerFrom) ==> mem.Readable(ptrs[j])
  {
    if i <= inner || inner == outerFrom then Frames(mem, ptrs[..i], 0)
    else
      Frames(mem, ptrs[..inner], 0) + [Elided(inner, outerFrom - inner)]
      + if i <= outerFrom then [] else Frames(mem, ptrs[outerFrom..i], outerFrom)
  }

  lemma UptoStep(mem: Memory, ptrs: seq<Addr>, inner: nat, outerFrom: nat, i: nat)
    requires i < |ptrs| && inner <= outerFrom
    requires forall j :: 0 <= j <= i && !(inner <= j < outerFrom) ==> mem.Readable(ptrs[j])
    ensures Upto(mem, ptrs, inner, outerFrom, i + 1) ==
            Upto(mem, ptrs, inner, outerFrom, i)
            + (if i == inner < outerFrom then [Elided(i, outerFrom - inner)] else [])
            + (if inner <= i < outerFrom then [] else [Frame(i, mem.At(ptrs[i]))])
  {
    if i < inner || inner == outerFrom {
      FramesSnoc(mem, ptrs, 0, i, 0);
    } else if i >= outerFrom {
      FramesSnoc(mem, ptrs, outerFrom, i, outerFrom);
    }
  }

  lemma FramesSnoc(mem: Memory, ptrs: seq<Addr>, from: nat, i: nat, depth: nat)
    requires from <= i < |ptrs| && AllReadable(mem, ptrs[from..i]) && mem.Readable(ptrs[i])
    ensures AllReadable(mem, ptrs[from..i + 1])
    ensures Frames(mem, ptrs[from..i + 1], depth) ==
            Frames(mem, ptrs[from..i], depth) + [Frame(depth + i - from, mem.At(ptrs[i]))]
  {
    assert ptrs[from..i + 1] == ptrs[from..i] + [ptrs[i]];
  }

  lemma UptoAll(mem: Memory, ptrs: seq<Addr>, n: int, outer: nat, outerFrom: nat)
    requires Max0(n) <= outerFrom
    requires outerFrom == if Max0(n) + outer < |ptrs| then |ptrs| - outer else Max0(n)
    requires forall j :: 0 <= j < |ptrs| && !(Max0(n) <= j < outerFrom) ==> mem.Readable(ptrs[j])
    ensures KeptReadable(mem, ptrs, n, outer)
    ensures Upto(mem, ptrs, Max0(n), outerFrom, |ptrs|) == Shown(mem, ptrs, n, outer)
  {
    assert ptrs[..|ptrs|] == ptrs;
  }

  // ---------- the one-pass walk ----------

  /** Emits while walking; -1 means no limit from the leaf. */
  method TraceOnePass(mem: Memory, start: Addr, n: int) returns (ok: bool, events: seq<Event>, depth: nat)
    requires n >= -1
    ensures depth == |events| <= MAX_STACK_WALK
    ensures var c := Chain(mem, start, Limit(n));
            && (ok <==> c.Some? && AllReadable(mem, c.value))
            && (ok ==> events == Frames(mem, c.value, 0))
  {
    events, depth := [], 0;
    var remote := start;
    ghost var ptrs: seq<Addr> := [];
    ghost var c := Chain(mem, start, Limit(n));
    assert c.Some? ==> [] + c.value == c.value;
    while remote != 0 && depth != n
      invariant depth == |events| == |ptrs| <= Limit(n)
      invariant AllReadable(mem, ptrs) && events == Frames(mem, ptrs, 0)
      invariant var rest := Chain(mem, remote, Limit(n) - depth);
                c == if rest.Some? then Text.Some(ptrs + rest.value) else Text.None
      decreases MAX_STACK_WALK - depth, remote
    {
      if depth >= MAX_STACK_WALK {
        break;
      }
      ghost var rest := Chain(mem, remote, Limit(n) - depth);
      if !mem.Readable(remote) {
        if c.Some? {
          assert c.value[|ptrs|] == rest.value[0] == remote;
        }
        return false, events, depth;
      }
      events := events + [Frame(depth, mem.At(remote))];
      ghost var more := Chain(mem, mem.link[remote], Limit(n) - depth - 1);
      if more.Some? {
        Text.ConcatAssoc(ptrs, [remote], more.value);
      }
      ptrs := ptrs + [remote];
      remote := mem.link[remote];
      depth := depth + 1;
    }
    assert ptrs + [] == ptrs;
    ok := true;
  }

  /** How far the one-pass walk may go. */
  function Limit(n: int): nat {
    if 0 <= n < MAX_STACK_WALK then n else MAX_STACK_WALK
  }

  // ---------- the two agree ----------

  /** A shorter walk sees the beginning of what a longer one sees. */
  lemma {:induction false} ChainPrefix(mem: Memory, a: Addr, k: nat, limit: nat)
    requires k <= limit && Chain(mem, a, limit).Some?
    ensures Chain(mem, a, k) ==
            Text.Some(var all := Chain(mem, a, limit).value; if k < |all| then all[..k] else all)
    decreases k
  {
    if a != 0 && k > 0 {
      ChainPrefix(mem, mem.link[a], k - 1, limit - 1);
      var all, rest := Chain(mem, a, limit).value, Chain(mem, mem.link[a], limit - 1).value;
      assert all == [a] + rest;
      if k < |all| {
        assert all[..k] == [a] + rest[..k - 1];
      }
    } else {
      var all := Chain(mem, a, limit).value;
      assert 0 < |all| ==> all[..0] == [];
    }
  }

  /** With nothing elided, both modes emit the same; otherwise they agree up to the marker, `-n` off
      counting as zero in collected mode. */
  lemma WalksAgree(mem: Memory, start: Addr, n: int, outer: nat)
    requires n >= -1
    requires var c := Chain(mem, start, MAX_STACK_WALK); c.Some? && AllReadable(mem, c.value)
    ensures Chain(mem, start, Limit(Max0(n))).Some? && AllReadable(mem, Chain(mem, start, Limit(Max0(n))).value)
    ensures var ptrs := Chain(mem, start, MAX_STACK_WALK).value;
            var inner := Max0(n);
            var shorter := Chain(mem, start, Limit(inner)).value;
            if inner + outer < |ptrs| then
                 inner < |Shown(mem, ptrs, n, outer)|
                 && Shown(mem, ptrs, n, outer)[..inner] == Frames(mem, shorter, 0)
               else Shown(mem, ptrs, n, outer) == Frames(mem, Chain(mem, start, Limit(-1)).value, 0)
  {
    hide Chain;
    ChainPrefix(mem, start, Limit(Max0(n)), MAX_STACK_WALK);
  }

  /** The marker says how many frames it stands for: its depth plus its count is where the stack
      resumes, and every real frame keeps the depth it has in the whole stack. */
  lemma MarkerIsExact(mem: Memory, ptrs: seq<Addr>, n: int, outer: nat)
    requires n >= -1 && KeptReadable(mem, ptrs, n, outer)
    ensures var shown := Shown(mem, ptrs, n, outer);
            && (forall i :: 0 <= i < |shown| && shown[i].Frame? ==>
                  && shown[i].depth < |ptrs| && mem.Readable(ptrs[shown[i].depth])
                  && shown[i].loc == mem.At(ptrs[shown[i].depth]))
            && (forall i :: 0 <= i < |shown| && shown[i].Elided? ==>
                  && Max0(n) + outer < |ptrs| && shown[i].count > 0 && i == shown[i].depth
                  && shown[i].depth + shown[i].count ==
                     if i + 1 < |shown| then shown[i + 1].depth else |ptrs|)
            && ((exists i :: 0 <= i < |shown| && shown[i].Elided?) <==> Max0(n) + outer < |ptrs|)
            && (Max0(n) + outer < |ptrs| ==> |shown| == Max0(n) + 1 + outer)
  {
    var shown, inner := Shown(mem, ptrs, n, outer), Max0(n);
    if inner + outer < |ptrs| {
      assert shown[inner] == Elided(inner, |ptrs| - outer - inner);
    }
  }
}
