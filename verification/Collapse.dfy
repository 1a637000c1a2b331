/**
 The decoder `stackcollapse-phpspy.pl`: one pass over the lines of a stream that many threads
 wrote, collecting frames, parking chunks by trace id and counting finished stacks.

 `clean` stands for the script's UTF-8 and control-character scrubbing of a function name; every
 result holds whatever it does.
 */
module Collapse {
  import opened Text

  type Frames = seq<Bytes>

  /** `@stack`, `%chunks` and `%stacks`; the counter hash is the multiset of its keys. */
  datatype State = State(stack: Frames, chunks: map<nat, map<nat, Frames>>, stacks: multiset<Bytes>)

  const START := State([], map[], multiset{})

  /** Root first, joined by semicolons. */
  function Key(frames: Frames): Bytes { Join(Reverse(frames), ';') }

  /** The root comes first and the leaf last: that is all there is to a key. */
  lemma KeyEndsWithLeaf(leaf: Bytes, above: Frames)
    ensures Key([leaf] + above) == if above == [] then leaf else Key(above) + (";" + leaf)
  {
    var r := Reverse(above);
    assert ([leaf] + above)[1..] == above;
    assert Reverse([leaf] + above) == r + [leaf];
    if above == [] {
      assert r + [leaf] == [leaf];
    } else {
      JoinSnoc(r, leaf);
    }
  }

  lemma {:induction false} JoinSnoc(parts: seq<Bytes>, last: Bytes)
    requires parts != []
    ensures Join(parts + [last], ';') == Join(parts, ';') + (";" + last)
  {
    var rest := parts[1..];
    assert (parts + [last])[1..] == rest + [last];
    if rest == [] {
      assert rest + [last] == [last];
    } else {
      JoinSnoc(rest, last);
    }
  }

  function Report(stacks: multiset<Bytes>, frames: Frames): multiset<Bytes> {
    if frames == [] then stacks else stacks + multiset{Key(frames)}
  }

  // ---------- what a line is ----------

  /** `/^(?:#|\d+) \S/` */
  predicate LooksLikeRecord(line: Bytes) {
    var n := if line != [] && line[0] == '#' then 1 else DigitSpan(line);
    0 < n < |line| - 1 && line[n] == ' ' && !IsSpace(line[n + 1])
  }

  datatype TraceId = TraceId(id: nat, k: nat, mark: char)

  const PREFIX: Bytes := "# trace_id = "

  /** `m{^# trace_id = (\d+)\.(\d+)(.)}`; with nothing after the digits the last digit is the mark. */
  function MatchTraceId(line: Bytes): Option<TraceId> {
    if PREFIX <= line then MatchNumbers(line[|PREFIX|..]) else None
  }

  function MatchNumbers(a: Bytes): Option<TraceId> {
    var n := DigitSpan(a);
    if n == 0 || n == |a| || a[n] != '.' then None
    else
      var b := a[n + 1..];
      var m := if DigitSpan(b) < |b| then DigitSpan(b) else |b| - 1;
      if m <= 0 then None
      else Some(TraceId(ValueOf(a[..n]), ValueOf(b[..m]), b[m]))
  }

  /** The frame a line contributes, if any: the word after the depth. */
  function FrameOf(clean: Bytes -> Bytes, line: Bytes): Frames {
    if LooksLikeRecord(line) && line[0] != '#' then [clean(FirstWord(line[DigitSpan(line) + 1..]))] else []
  }

  // ---------- chunks ----------

  lemma {:induction false} MaxExists(s: set<nat>)
    requires s != {}
    ensures exists m :: m in s && forall x :: x in s ==> x <= m
  {
    var y :| y in s;
    assert forall x :: x in s ==> x == y || x in s - {y};
    if s - {y} != {} {
      MaxExists(s - {y});
      var m :| m in s - {y} && forall x :: x in s - {y} ==> x <= m;
      var top := if y <= m then m else y;
      assert top in s;
    }
  }

  function MaxOf(s: set<nat>): (m: nat)
    requires s != {}
    ensures m in s && forall x :: x in s ==> x <= m
  {
    MaxExists(s);
    var m :| m in s && forall x :: x in s ==> x <= m;
    m
  }

  predicate Increasing(r: seq<nat>) {
    forall i, j :: 0 <= i < j < |r| ==> r[i] < r[j]
  }

  lemma IncreasingSnoc(r: seq<nat>, m: nat)
    requires Increasing(r) && forall x :: x in r ==> x < m
    ensures Increasing(r + [m])
    ensures forall x :: x in r + [m] <==> x in r || x == m
  {
    forall i, j | 0 <= i < j < |r| + 1
      ensures (r + [m])[i] < (r + [m])[j]
    {
      assert r[i] in r;
    }
  }

  /** Chunk numbers in increasing order. */
  function Sorted(s: set<nat>): (r: seq<nat>)
    ensures |r| == |s|
    ensures forall x :: x in r <==> x in s
    ensures Increasing(r)
  {
    if s == {} then []
    else
      var m := MaxOf(s);
      var rest := Sorted(s - {m});
      IncreasingSnoc(rest, m);
      rest + [m]
  }

  function Gather(saved: map<nat, Frames>, keys: seq<nat>): Frames
    requires forall k :: k in keys ==> k in saved
  {
    if keys == [] then [] else saved[keys[0]] + Gather(saved, keys[1..])
  }

  /** The script's test: as many chunks as the last number says, and the last number is the highest. */
  predicate AllThere(keys: seq<nat>, k: nat) { |keys| == k + 1 && keys[|keys| - 1] == k }

  function Saved(st: State, id: nat): map<nat, Frames> {
    if id in st.chunks then st.chunks[id] else map[]
  }

  function SaveChunk(st: State, t: TraceId): State {
    var saved := Saved(st, t.id)[t.k := st.stack];
    if t.mark != '!' then State([], st.chunks[t.id := saved], st.stacks)
    else
      var keys := Sorted(saved.Keys);
      State([], st.chunks - {t.id},
            if AllThere(keys, t.k) then Report(st.stacks, Gather(saved, keys)) else st.stacks)
  }

  // ---------- the loop ----------

  function Step(clean: Bytes -> Bytes, st: State, line: Bytes): State {
    if line == [] then State([], st.chunks, Report(st.stacks, st.stack))
    else if !LooksLikeRecord(line) then st
    else match MatchTraceId(line)
      case Some(t) => SaveChunk(st, t)
      case None => st.(stack := st.stack + FrameOf(clean, line))
  }

  function Fold(clean: Bytes -> Bytes, st: State, lines: seq<Bytes>): State
    decreases |lines|
  {
    if lines == [] then st else Fold(clean, Step(clean, st, lines[0]), lines[1..])
  }

  /** The script's counters at end of input. */
  function Decode(clean: Bytes -> Bytes, stream: Bytes): multiset<Bytes> {
    var st := Fold(clean, START, Lines(stream));
    Report(st.stacks, st.stack)
  }

  lemma {:induction false} FoldConcat(clean: Bytes -> Bytes, st: State, a: seq<Bytes>, b: seq<Bytes>)
    ensures Fold(clean, st, a + b) == Fold(clean, Fold(clean, st, a), b)
    decreases |a|
  {
    hide Step;
    if a == [] {
      assert a + b == b;
    } else {
      assert (a + b)[1..] == a[1..] + b;
      FoldConcat(clean, Step(clean, st, a[0]), a[1..], b);
    }
  }

  lemma UpdateThenRemove<K, V>(m: map<K, V>, k: K, v: V)
    ensures m[k := v] - {k} == m - {k}
  {
  }

  class Collapser {
    const clean: Bytes -> Bytes
    var stack: Frames
    var chunks: map<nat, map<nat, Frames>>
    var stacks: multiset<Bytes>

    ghost function View(): State
      reads this
    {
      State(stack, chunks, stacks)
    }

    constructor (clean: Bytes -> Bytes)
      ensures this.clean == clean && View() == START
    {
      this.clean := clean;
      stack, chunks, stacks := [], map[], multiset{};
    }

    static method GatherChunks(saved: map<nat, Frames>, keys: seq<nat>) returns (frames: Frames)
      requires forall k :: k in keys ==> k in saved
      ensures frames == Gather(saved, keys)
    {
      frames := [];
      for i := 0 to |keys|
        invariant frames + Gather(saved, keys[i..]) == Gather(saved, keys)
      {
        frames := frames + saved[keys[i]];
      }
    }

    /** Parks the pending frames; a closing chunk flushes its trace or throws it away. */
    method ChunkLine(t: TraceId)
      modifies this
      ensures View() == SaveChunk(old(View()), t)
    {
      hide Sorted, Key, Gather, AllThere;
      var saved: map<nat, Frames> := map[];
      if t.id in chunks {
        saved := chunks[t.id];
      }
      saved := saved[t.k := stack];
      chunks := chunks[t.id := saved];
      stack := [];
      if t.mark == '!' {
        Close(saved, t.k);
        UpdateThenRemove(old(chunks), t.id, saved);
        chunks := chunks - {t.id};
      }
    }

    /** Counts a chunked trace if nothing of it is missing. */
    method Close(saved: map<nat, Frames>, k: nat)
      modifies this`stacks
      ensures stacks == if AllThere(Sorted(saved.Keys), k) then Report(old(stacks), Gather(saved, Sorted(saved.Keys)))
                        else old(stacks)
    {
      hide Sorted, Key, Gather, AllThere;
      var keys := Sorted(saved.Keys);
      if AllThere(keys, k) {
        var frames := GatherChunks(saved, keys);
        if frames != [] {
          stacks := stacks + multiset{Key(frames)};
        }
      }
    }

    method Line(line: Bytes)
      modifies this
      ensures View() == Step(clean, old(View()), line)
    {
      if line == [] {
        if stack != [] {
          stacks := stacks + multiset{Key(stack)};
        }
        stack := [];
        return;
      }
      if !LooksLikeRecord(line) {
        return;
      }
      match MatchTraceId(line)
      case Some(t) =>
        ChunkLine(t);
      case None =>
        if line[0] != '#' {
          stack := stack + [clean(FirstWord(line[DigitSpan(line) + 1..]))];
        }
    }

    method Run(stream: Bytes)
      requires View() == START
      modifies this
      ensures stacks == Decode(clean, stream)
    {
      var lines := Lines(stream);
      for i := 0 to |lines|
        invariant Fold(clean, View(), lines[i..]) == Fold(clean, START, lines)
      {
        Line(lines[i]);
        assert lines[i..][1..] == lines[i + 1..];
      }
      if stack != [] {
        stacks := stacks + multiset{Key(stack)};
      }
    }
  }

  // ---------- what the loop does to whole groups of lines ----------

  /** The script's completeness test holds exactly when every chunk number up to the last is there. */
  lemma AllThereIffEveryChunk(keys: set<nat>, k: nat)
    ensures AllThere(Sorted(keys), k) <==> keys == UpTo(k + 1)
    ensures AllThere(Sorted(keys), k) ==> forall i :: 0 <= i <= k ==> Sorted(keys)[i] == i
  {
    hide Sorted, UpTo;
    var r := Sorted(keys);
    SortedAtLeast(r);
    if keys == UpTo(k + 1) {
      assert r[k] in r;
    }
    if AllThere(r, k) {
      SortedAtMost(r);
      assert forall i :: 0 <= i <= k ==> r[i] == i && r[i] in r;
      assert forall x :: x in r ==> x <= k;
      forall x: nat | x <= k
        ensures x in r
      {
        assert r[x] == x;
      }
    }
  }

  function UpTo(n: nat): (s: set<nat>)
    ensures |s| == n
    ensures forall x: nat :: x in s <==> x < n
  {
    if n == 0 then {} else UpTo(n - 1) + {n - 1}
  }

  lemma {:induction false} SortedAtLeast(r: seq<nat>)
    requires Increasing(r)
    ensures forall i :: 0 <= i < |r| ==> i <= r[i]
  {
    if r != [] {
      SortedAtLeast(r[..|r| - 1]);
      assert |r| > 1 ==> r[..|r| - 1][|r| - 2] == r[|r| - 2];
    }
  }

  lemma {:induction false} SortedAtMost(r: seq<nat>)
    requires Increasing(r)
    ensures forall i :: 0 <= i < |r| ==> r[i] + |r| - 1 - i <= r[|r| - 1]
  {
    if |r| > 1 {
      var t := r[1..];
      SortedAtMost(t);
      assert t[0] + |t| - 1 - 0 <= t[|t| - 1];
      forall i | 0 <= i < |r|
        ensures r[i] + |r| - 1 - i <= r[|r| - 1]
      {
        assert i > 0 ==> r[i] == t[i - 1];
      }
    }
  }

  function Names(clean: Bytes -> Bytes, lines: seq<Bytes>): Frames {
    if lines == [] then [] else FrameOf(clean, lines[0]) + Names(clean, lines[1..])
  }

  lemma {:induction false} NamesConcat(clean: Bytes -> Bytes, a: seq<Bytes>, b: seq<Bytes>)
    ensures Names(clean, a + b) == Names(clean, a) + Names(clean, b)
  {
    hide FrameOf;
    if a == [] {
      assert a + b == b;
    } else {
      assert (a + b)[1..] == a[1..] + b;
      NamesConcat(clean, a[1..], b);
      ConcatAssoc(FrameOf(clean, a[0]), Names(clean, a[1..]), Names(clean, b));
    }
  }

  /** A line that neither flushes nor parks anything. */
  predicate PlainLine(line: Bytes) { line != [] && MatchTraceId(line).None? }

  lemma {:induction false} FoldPlain(clean: Bytes -> Bytes, st: State, lines: seq<Bytes>)
    requires forall i :: 0 <= i < |lines| ==> PlainLine(lines[i])
    ensures Fold(clean, st, lines) == st.(stack := st.stack + Names(clean, lines))
    decreases |lines|
  {
    if lines != [] {
      var next := Step(clean, st, lines[0]);
      assert PlainLine(lines[0]);
      assert next == st.(stack := st.stack + FrameOf(clean, lines[0]));
      hide Step, FrameOf, MatchTraceId;
      FoldPlain(clean, next, lines[1..]);
      ConcatAssoc(st.stack, FrameOf(clean, lines[0]), Names(clean, lines[1..]));
    } else {
      assert st.stack + [] == st.stack;
    }
  }
}
