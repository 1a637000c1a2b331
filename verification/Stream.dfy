/**
 Many threads writing traces to one stream, and the decoder reading it.

 A run is any sequence of actions: a thread begins a trace (any records), or performs the next
 write of its trace, which either reaches the stream as a unit or is lost. Threads interleave
 freely. The decoder ends up with exactly the traces all of whose writes arrived.
 */
module Stream {
  import opened Text
  import opened TraceFormat
  import opened Collapse
  import opened Records
  import opened Delivery

  /** A trace on its way out: which writes were tried, and which of them arrived. */
  datatype Job = Job(records: seq<Record>, id: nat, next: nat, got: set<nat>)

  /** Threads' jobs, the id counter, the shared stream, and the record of what was begun and finished. */
  datatype Sys = Sys(jobs: map<nat, Job>, counter: nat, stream: Bytes,
                     begun: multiset<seq<Record>>, finished: seq<Job>)

  datatype Action = Begin(tid: nat, records: seq<Record>) | Emit(tid: nat, arrives: bool)

  const IDLE := Sys(map[], 0, [], multiset{}, [])

  function Buffer(cfg: Config, job: Job): Buffered { Built(cfg, Texts(job.records)) }

  function JobWrites(cfg: Config, job: Job): seq<Bytes> { Writes(cfg, job.id, Buffer(cfg, job)) }

  predicate Chunked(cfg: Config, job: Job) { IsChunked(cfg, Buffer(cfg, job)) }

  /** A thread with a trace under way cannot begin another; ids come from a 64-bit counter. */
  predicate Enabled(cfg: Config, s: Sys, a: Action) {
    match a
    case Begin(tid, _) => tid !in s.jobs && s.counter < TWO_64
    case Emit(tid, _) => tid in s.jobs && s.jobs[tid].next < |JobWrites(cfg, s.jobs[tid])|
  }

  /** One action; an empty trace is never written, and an id is drawn only for a chunked trace. */
  function Next(cfg: Config, s: Sys, a: Action): Sys
    requires Enabled(cfg, s, a)
  {
    match a
    case Begin(tid, records) =>
      var job := Job(records, s.counter, 0, {});
      if Buffer(cfg, job).bytes == [] then s
      else s.(jobs := s.jobs[tid := job], begun := s.begun + multiset{records},
              counter := if Chunked(cfg, job) then s.counter + 1 else s.counter)
    case Emit(tid, arrives) =>
      var job := s.jobs[tid];
      var writes := JobWrites(cfg, job);
      var stream := if arrives then s.stream + writes[job.next] else s.stream;
      var job' := job.(next := job.next + 1, got := if arrives then job.got + {job.next} else job.got);
      if job'.next == |writes| then s.(jobs := s.jobs - {tid}, stream := stream, finished := s.finished + [job'])
      else s.(jobs := s.jobs[tid := job'], stream := stream)
  }

  /** The state after any sequence of actions; actions that are not enabled do not happen. */
  function After(cfg: Config, run: seq<Action>): Sys {
    if run == [] then IDLE
    else
      var s, a := After(cfg, run[..|run| - 1]), run[|run| - 1];
      if Enabled(cfg, s, a) then Next(cfg, s, a) else s
  }

  // ---------- what should be reported ----------

  /** The part of the buffer that is written. */
  function Covered(cfg: Config, id: nat, b: Buffered): Bytes {
    if IsChunked(cfg, b) then Flatten(Bodies(cfg, id, 0, b.bytes)) else b.bytes
  }

  /** The part of a trace is a run of its records from the first on. */
  lemma {:induction false} WholePrefixIsRecords(cfg: Config, texts: seq<Bytes>, p: Bytes) returns (j: nat)
    requires cfg.Valid() && p <= Framed(cfg, texts) && WholeRecords(cfg, p)
    ensures j <= |texts| && p == Framed(cfg, texts[..j])
  {
    hide Strip;
    if p == [] {
      j := 0;
      assert texts[..0] == [];
    } else {
      var body, rest := Strip(cfg, texts[0]), Framed(cfg, texts[1..]);
      var first := body + [cfg.frame];
      StripRemovesFrameDelimiter(cfg, texts[0]);
      assert Framed(cfg, texts) == first + rest;
      assert |p| >= |first| by {
        assert (first + rest)[|p| - 1] == p[|p| - 1];
        assert forall i :: 0 <= i < |body| ==> (first + rest)[i] == body[i];
      }
      assert p[..|first|] == first;
      assert p[|first|..] <= rest;
      assert WholeRecords(cfg, p[|first|..]);
      j := WholePrefixIsRecords(cfg, texts[1..], p[|first|..]);
      assert texts[..j + 1][1..] == texts[1..][..j];
      assert Framed(cfg, texts[..j + 1]) == first + Framed(cfg, texts[1..][..j]);
      assert p == first + p[|first|..];
      j := j + 1;
    }
  }

  lemma CoveredIsWhole(cfg: Config, id: nat, b: Buffered)
    requires WholeRecords(cfg, b.bytes)
    ensures Covered(cfg, id, b) <= b.bytes && WholeRecords(cfg, Covered(cfg, id, b))
  {
    hide ChunkEnd, Room, LeftOver;
    BodiesCoverPrefix(cfg, id, 0, b.bytes);
    LeftOverDoesNotFit(cfg, id, 0, b.bytes);
    if IsChunked(cfg, b) {
      BodiesEndWhole(cfg, id, 0, b.bytes);
    }
  }

  lemma {:induction false} BodiesEndWhole(cfg: Config, id: nat, k: nat, rest: Bytes)
    requires WholeRecords(cfg, rest)
    ensures WholeRecords(cfg, Flatten(Bodies(cfg, id, k, rest)))
    decreases |rest|
  {
    hide Room;
    var n := ChunkEnd(cfg, rest, Room(cfg, id, k));
    hide ChunkEnd;
    if n > 0 {
      BodiesEndWhole(cfg, id, k + 1, rest[n..]);
      FlattenCons(rest[..n], Bodies(cfg, id, k + 1, rest[n..]));
    }
  }

  lemma KeptExists(cfg: Config, id: nat, records: seq<Record>)
    requires cfg.Valid()
    ensures exists j :: 0 <= j <= |records| &&
              Covered(cfg, id, Built(cfg, Texts(records))) == Framed(cfg, Texts(records[..j]))
  {
    hide Covered, RecordText, Framed;
    var texts := Texts(records);
    var k := BuiltIsLongestFit(cfg, texts);
    FramedWhole(cfg, texts[..k]);
    CoveredIsWhole(cfg, id, Built(cfg, texts));
    var j := WholePrefixIsRecords(cfg, texts[..k], Covered(cfg, id, Built(cfg, texts)));
    TextsTake(records, k);
    TextsTake(records, j);
    assert texts[..k][..j] == texts[..j];
  }

  /** The records of a trace that survive both truncations. */
  ghost function Kept(cfg: Config, id: nat, records: seq<Record>): seq<Record>
    requires cfg.Valid()
  {
    KeptExists(cfg, id, records);
    var j :| 0 <= j <= |records| && Covered(cfg, id, Built(cfg, Texts(records))) == Framed(cfg, Texts(records[..j]));
    records[..j]
  }

  ghost function KeptNames(clean: Bytes -> Bytes, cfg: Config, job: Job): Frames
    requires cfg.Valid()
  {
    AllNames(clean, Kept(cfg, job.id, job.records))
  }

  predicate Complete(cfg: Config, job: Job) { job.got == UpTo(|JobWrites(cfg, job)|) }

  /** One count per trace that arrived in full and has a frame to show. */
  ghost function Reported(clean: Bytes -> Bytes, cfg: Config, jobs: seq<Job>): multiset<Bytes>
    requires cfg.Valid()
  {
    if jobs == [] then multiset{}
    else
      var before, job := Reported(clean, cfg, jobs[..|jobs| - 1]), jobs[|jobs| - 1];
      if Complete(cfg, job) && KeptNames(clean, cfg, job) != [] then before + multiset{Key(KeptNames(clean, cfg, job))}
      else before
  }

  // ---------- the writes of one trace ----------

  lemma BufferFacts(clean: Bytes -> Bytes, cfg: Config, job: Job)
    requires NewlineMode(cfg)
    ensures WholeRecords(cfg, Buffer(cfg, job).bytes) && PlainLines(Buffer(cfg, job).bytes)
    ensures NamesOf(clean, Covered(cfg, job.id, Buffer(cfg, job))) == KeptNames(clean, cfg, job)
  {
    hide Covered, Framed, RecordText, PlainLine, Lines, Names;
    var k := BuiltIsLongestFit(cfg, Texts(job.records));
    TextsTake(job.records, k);
    FramedWhole(cfg, Texts(job.records[..k]));
    RecordsDecoded(clean, cfg, job.records[..k]);
    KeptExists(cfg, job.id, job.records);
    RecordsDecoded(clean, cfg, Kept(cfg, job.id, job.records));
  }

  lemma {:induction false} BodiesPlain(cfg: Config, id: nat, k: nat, rest: Bytes, i: nat)
    requires NewlineMode(cfg) && WholeRecords(cfg, rest) && PlainLines(rest)
    requires i < |Bodies(cfg, id, k, rest)|
    ensures Terminated(Bodies(cfg, id, k, rest)[i]) && PlainLines(Bodies(cfg, id, k, rest)[i])
    decreases |rest|
  {
    hide Room, Lines, PlainLine, PlainLines;
    var n := ChunkEnd(cfg, rest, Room(cfg, id, k));
    assert Terminated(rest[..n]);
    hide ChunkEnd;
    assert rest == rest[..n] + rest[n..];
    PlainLinesSplit(rest[..n], rest[n..]);
    if i > 0 {
      BodiesPlain(cfg, id, k + 1, rest[n..], i - 1);
    }
  }

  /** Each chunk body is plain; together they carry the names that are kept. */
  lemma ChunksCarryKeptNames(clean: Bytes -> Bytes, cfg: Config, job: Job)
    requires NewlineMode(cfg) && Chunked(cfg, job) && Buffer(cfg, job).bytes != []
    ensures var bodies := ChunkBodies(cfg, job.id, Buffer(cfg, job));
            && bodies != []
            && (forall i :: 0 <= i < |bodies| ==> Terminated(bodies[i]) && PlainLines(bodies[i]))
            && NamesOf(clean, Flatten(bodies)) == KeptNames(clean, cfg, job)
  {
    hide Bodies, LeftOver, PlainLines, Names, Lines, TruncMarker;
    var b := Buffer(cfg, job);
    var cut, bodies := Bodies(cfg, job.id, 0, b.bytes), ChunkBodies(cfg, job.id, b);
    BufferFacts(clean, cfg, job);
    MarkerIsPlain(clean, cfg);
    BodiesCoverPrefix(cfg, job.id, 0, b.bytes);
    assert Flatten<char>([]) == [];
    forall i | 0 <= i < |bodies|
      ensures Terminated(bodies[i]) && PlainLines(bodies[i])
    {
      if i < |cut| {
        BodiesPlain(cfg, job.id, 0, b.bytes, i);
      }
    }
    if |bodies| > |cut| {
      FlattenSnoc(cut, TruncMarker(cfg));
      CoveredIsWhole(cfg, job.id, b);
      NamesOfConcat(clean, Flatten(cut), TruncMarker(cfg));
      assert NamesOf(clean, Flatten(cut)) + [] == NamesOf(clean, Flatten(cut));
    } else {
      assert bodies == cut;
    }
  }

  /** A trace written whole: its one write, up to the final newline, carries the kept names. */
  lemma WholeCarriesKeptNames(clean: Bytes -> Bytes, cfg: Config, job: Job) returns (body: Bytes)
    requires NewlineMode(cfg) && !Chunked(cfg, job)
    ensures Terminated(body) && PlainLines(body) && NamesOf(clean, body) == KeptNames(clean, cfg, job)
    ensures JobWrites(cfg, job) == [body + "\n"]
  {
    hide PlainLine, Names, Lines, TruncMarker;
    var b := Buffer(cfg, job);
    BufferFacts(clean, cfg, job);
    MarkerIsPlain(clean, cfg);
    body := b.bytes + (if b.truncated then TruncMarker(cfg) else []);
    if b.truncated {
      LinesConcat(b.bytes, TruncMarker(cfg));
      NamesOfConcat(clean, b.bytes, TruncMarker(cfg));
    } else {
      assert body == b.bytes;
    }
  }

  // ---------- the invariant ----------

  function Decoded(clean: Bytes -> Bytes, s: Sys): State { Fold(clean, START, Lines(s.stream)) }

  /** What the decoder has parked for a chunked trace. */
  function Parked(clean: Bytes -> Bytes, cfg: Config, job: Job): map<nat, Frames> {
    var bodies := ChunkBodies(cfg, job.id, Buffer(cfg, job));
    map k | k in job.got :: if k < |bodies| then NamesOf(clean, bodies[k]) else []
  }

  ghost predicate ActiveOk(clean: Bytes -> Bytes, cfg: Config, st: State, counter: nat, job: Job) {
    && Buffer(cfg, job).bytes != []
    && job.next < |JobWrites(cfg, job)|
    && job.got <= UpTo(job.next)
    && (Chunked(cfg, job) ==> job.id < counter && Saved(st, job.id) == Parked(clean, cfg, job))
  }

  /** Two traces do not share an id. */
  predicate Apart(cfg: Config, a: Job, b: Job) {
    Chunked(cfg, a) && Chunked(cfg, b) ==> a.id != b.id
  }

  ghost predicate IdsDistinct(cfg: Config, s: Sys) {
    && (forall t, u :: t in s.jobs && u in s.jobs && t != u ==> Apart(cfg, s.jobs[t], s.jobs[u]))
    && (forall t, i :: t in s.jobs && 0 <= i < |s.finished| ==> Apart(cfg, s.jobs[t], s.finished[i]))
    && (forall i :: 0 <= i < |s.finished| ==> Chunked(cfg, s.finished[i]) ==> s.finished[i].id < s.counter)
  }

  /** A trace that still occupies the chunk table: under way, or its closing chunk was lost. */
  predicate Lingers(cfg: Config, job: Job) {
    Chunked(cfg, job) && job.got != {} && |JobWrites(cfg, job)| - 1 !in job.got
  }

  ghost predicate Owned(cfg: Config, s: Sys, id: nat) {
    || (exists t :: t in s.jobs && s.jobs[t].id == id && Lingers(cfg, s.jobs[t]))
    || (exists i :: 0 <= i < |s.finished| && s.finished[i].id == id && Lingers(cfg, s.finished[i]))
  }

  ghost predicate Inv(clean: Bytes -> Bytes, cfg: Config, s: Sys)
    requires cfg.Valid()
  {
    var st := Decoded(clean, s);
    && Terminated(s.stream)
    && st.stack == []
    && st.stacks == Reported(clean, cfg, s.finished)
    && (forall t :: t in s.jobs ==> ActiveOk(clean, cfg, st, s.counter, s.jobs[t]))
    && IdsDistinct(cfg, s)
    && forall id :: id in st.chunks ==> Owned(cfg, s, id)
  }

  // ---------- one write ----------

  function Arrive(job: Job): Job { job.(next := job.next + 1, got := job.got + {job.next}) }

  /** The decoder's state after the next write of `job` arrives. */
  ghost function Absorbed(clean: Bytes -> Bytes, cfg: Config, st: State, job: Job): State
    requires cfg.Valid()
  {
    var job' := Arrive(job);
    if Chunked(cfg, job) && job'.next < |JobWrites(cfg, job)| then
      State([], st.chunks[job.id := Parked(clean, cfg, job')], st.stacks)
    else
      State([],
            if Chunked(cfg, job) then st.chunks - {job.id} else st.chunks,
            if Complete(cfg, job') then Report(st.stacks, KeptNames(clean, cfg, job)) else st.stacks)
  }

  lemma WriteEffect(clean: Bytes -> Bytes, cfg: Config, st: State, counter: nat, job: Job)
    requires NewlineMode(cfg) && st.stack == [] && ActiveOk(clean, cfg, st, counter, job)
    ensures var w := JobWrites(cfg, job)[job.next];
            Terminated(w) && Fold(clean, st, Lines(w)) == Absorbed(clean, cfg, st, job)
  {
    if Chunked(cfg, job) {
      ChunkWriteEffect(clean, cfg, st, counter, job);
    } else {
      hide KeptNames, PlainLines, NamesOf, Lines, Fold, Buffer;
      var body := WholeCarriesKeptNames(clean, cfg, job);
      WholeEffect(clean, cfg, st, body);
      assert job.next == 0 && job.got == {};
      assert UpTo(1) == {0};
    }
  }

  lemma ChunkWriteShape(cfg: Config, job: Job, k: nat)
    requires Chunked(cfg, job) && k < |JobWrites(cfg, job)|
    ensures var bodies := ChunkBodies(cfg, job.id, Buffer(cfg, job));
            && |JobWrites(cfg, job)| == |bodies|
            && JobWrites(cfg, job)[k] == bodies[k] + Tail(cfg, job.id, k, if k == |bodies| - 1 then '!' else '~')
  {
    hide Tail, ChunkBodies, Buffer;
  }

  /** The mark on write `k` of a chunked trace. */
  function Mark(cfg: Config, job: Job, k: nat): char {
    if k == |JobWrites(cfg, job)| - 1 then '!' else '~'
  }

  lemma ChunkArrives(clean: Bytes -> Bytes, cfg: Config, st: State, counter: nat, job: Job)
    requires NewlineMode(cfg) && st.stack == [] && ActiveOk(clean, cfg, st, counter, job) && Chunked(cfg, job)
    ensures var w, body := JobWrites(cfg, job)[job.next], ChunkBodies(cfg, job.id, Buffer(cfg, job));
            && Terminated(w)
            && job.next < |body|
            && Fold(clean, st, Lines(w)) ==
               SaveChunk(st.(stack := NamesOf(clean, body[job.next])),
                         TraceId(job.id, job.next, Mark(cfg, job, job.next)))
  {
    hide KeptNames, PlainLines, NamesOf, Lines, Fold, Built, ChunkBodies, Tail, SaveChunk, Writes, UpTo;
    hide IsChunked, Parked;
    var bodies, k := ChunkBodies(cfg, job.id, Buffer(cfg, job)), job.next;
    ChunksCarryKeptNames(clean, cfg, job);
    ChunkWriteShape(cfg, job, k);
    TailTerminated(cfg, job.id, k, Mark(cfg, job, k));
    ChunkEffect(clean, cfg, st, bodies[k], TraceId(job.id, k, Mark(cfg, job, k)));
  }

  lemma ParkedAfter(clean: Bytes -> Bytes, cfg: Config, job: Job)
    requires job.next < |ChunkBodies(cfg, job.id, Buffer(cfg, job))|
    ensures Parked(clean, cfg, Arrive(job)) ==
            Parked(clean, cfg, job)[job.next := NamesOf(clean, ChunkBodies(cfg, job.id, Buffer(cfg, job))[job.next])]
  {
    hide Built, ChunkBodies, NamesOf;
  }

  lemma ChunkWriteEffect(clean: Bytes -> Bytes, cfg: Config, st: State, counter: nat, job: Job)
    requires NewlineMode(cfg) && st.stack == [] && ActiveOk(clean, cfg, st, counter, job) && Chunked(cfg, job)
    ensures var w := JobWrites(cfg, job)[job.next];
            Terminated(w) && Fold(clean, st, Lines(w)) == Absorbed(clean, cfg, st, job)
  {
    hide Kept, NamesOf, Lines, Fold, Built, ChunkBodies, Sorted, Gather, AllThere, Writes, IsChunked, Parked, Report;
    ChunkArrives(clean, cfg, st, counter, job);
    ParkedAfter(clean, cfg, job);
    if Mark(cfg, job, job.next) == '!' {
      ClosingChunk(clean, cfg, job, Parked(clean, cfg, Arrive(job)));
    }
  }

  lemma TailTerminated(cfg: Config, id: nat, k: nat, mark: char)
    requires NewlineMode(cfg)
    ensures var tail := Tail(cfg, id, k, mark); tail != [] && tail[|tail| - 1] == '\n'
  {
  }

  /** The closing chunk counts the trace if and only if all of it arrived. */
  lemma ClosingChunk(clean: Bytes -> Bytes, cfg: Config, job: Job, saved: map<nat, Frames>)
    requires NewlineMode(cfg) && Chunked(cfg, job) && Buffer(cfg, job).bytes != []
    requires job.next == |JobWrites(cfg, job)| - 1 && saved == Parked(clean, cfg, Arrive(job))
    ensures AllThere(Sorted(saved.Keys), job.next) <==> Complete(cfg, Arrive(job))
    ensures Complete(cfg, Arrive(job)) ==> Gather(saved, Sorted(saved.Keys)) == KeptNames(clean, cfg, job)
  {
    hide Kept, NamesOf, Built, ChunkBodies, Sorted, Gather, UpTo, Writes, IsChunked;
    assert saved.Keys == Arrive(job).got;
    AllThereIffEveryChunk(saved.Keys, job.next);
    if Complete(cfg, Arrive(job)) {
      GatherAll(clean, cfg, job, saved);
    }
  }

  lemma GatherAll(clean: Bytes -> Bytes, cfg: Config, job: Job, saved: map<nat, Frames>)
    requires NewlineMode(cfg) && Chunked(cfg, job) && Buffer(cfg, job).bytes != []
    requires job.next == |JobWrites(cfg, job)| - 1 && saved == Parked(clean, cfg, Arrive(job))
    requires saved.Keys == UpTo(job.next + 1)
    ensures Gather(saved, Sorted(saved.Keys)) == KeptNames(clean, cfg, job)
  {
    hide KeptNames, PlainLines, NamesOf, Built, ChunkBodies, Sorted, Gather, UpTo, Writes, IsChunked;
    var bodies := ChunkBodies(cfg, job.id, Buffer(cfg, job));
    ChunkWriteShape(cfg, job, job.next);
    ChunksCarryKeptNames(clean, cfg, job);
    AllThereIffEveryChunk(saved.Keys, job.next);
    forall i | 0 <= i < |bodies|
      ensures Terminated(bodies[i]) && 0 + i in saved && saved[0 + i] == NamesOf(clean, bodies[i])
    {
      assert i in saved.Keys;
    }
    GatherInOrder(clean, saved, Sorted(saved.Keys), bodies, 0);
  }

  // ---------- every action keeps the invariant ----------

  /** The decoder after the next write of `job`, which may be lost. */
  ghost function AfterWrite(clean: Bytes -> Bytes, cfg: Config, st: State, job: Job, arrives: bool): State
    requires cfg.Valid()
  {
    if arrives then Absorbed(clean, cfg, st, job) else st
  }

  lemma DecodeAppended(clean: Bytes -> Bytes, stream: Bytes, w: Bytes)
    requires Terminated(stream)
    ensures Fold(clean, START, Lines(stream + w)) == Fold(clean, Fold(clean, START, Lines(stream)), Lines(w))
  {
    hide Fold, Lines;
    LinesConcat(stream, w);
    FoldConcat(clean, START, Lines(stream), Lines(w));
  }

  lemma DecodedAfterEmit(clean: Bytes -> Bytes, cfg: Config, s: Sys, tid: nat, arrives: bool)
    requires NewlineMode(cfg) && Inv(clean, cfg, s) && Enabled(cfg, s, Emit(tid, arrives))
    ensures var s' := Next(cfg, s, Emit(tid, arrives));
            && Terminated(s'.stream)
            && Decoded(clean, s') == AfterWrite(clean, cfg, Decoded(clean, s), s.jobs[tid], arrives)
  {
    hide Fold, Lines, Absorbed, JobWrites, Chunked, Owned, IdsDistinct, Reported, ActiveOk;
    if arrives {
      var job := s.jobs[tid];
      assert ActiveOk(clean, cfg, Decoded(clean, s), s.counter, job);
      WriteEffect(clean, cfg, Decoded(clean, s), s.counter, job);
      DecodeAppended(clean, s.stream, JobWrites(cfg, job)[job.next]);
    }
  }

  /** A write touches no other trace's entry in the chunk table. */
  lemma OtherJobUnaffected(clean: Bytes -> Bytes, cfg: Config, st: State, counter: nat, job: Job, arrives: bool,
                           other: Job)
    requires cfg.Valid() && ActiveOk(clean, cfg, st, counter, other) && Apart(cfg, other, job)
    ensures ActiveOk(clean, cfg, AfterWrite(clean, cfg, st, job, arrives), counter, other)
  {
    hide Parked, KeptNames, JobWrites, Buffer, Chunked;
  }

  lemma JobContinues(clean: Bytes -> Bytes, cfg: Config, st: State, counter: nat, job: Job, arrives: bool)
    requires cfg.Valid() && ActiveOk(clean, cfg, st, counter, job) && job.next + 1 < |JobWrites(cfg, job)|
    ensures var job' := job.(next := job.next + 1, got := if arrives then job.got + {job.next} else job.got);
            ActiveOk(clean, cfg, AfterWrite(clean, cfg, st, job, arrives), counter, job')
  {
    hide Built, ChunkBodies, Numbered, NamesOf, Kept, UpTo;
    assert !Chunked(cfg, job) ==> |JobWrites(cfg, job)| == 1;
  }

  lemma InvEmitJobs(clean: Bytes -> Bytes, cfg: Config, s: Sys, tid: nat, arrives: bool)
    requires NewlineMode(cfg) && Inv(clean, cfg, s) && Enabled(cfg, s, Emit(tid, arrives))
    ensures var s' := Next(cfg, s, Emit(tid, arrives));
            var st' := AfterWrite(clean, cfg, Decoded(clean, s), s.jobs[tid], arrives);
            forall t :: t in s'.jobs ==> ActiveOk(clean, cfg, st', s'.counter, s'.jobs[t])
  {
    hide AfterWrite, JobWrites, Buffer, Owned, ActiveOk, Decoded, IsChunked, Reported;
    var s' := Next(cfg, s, Emit(tid, arrives));
    var st, job := Decoded(clean, s), s.jobs[tid];
    var st' := AfterWrite(clean, cfg, st, job, arrives);
    forall t | t in s'.jobs
      ensures ActiveOk(clean, cfg, st', s'.counter, s'.jobs[t])
    {
      if t == tid {
        JobContinues(clean, cfg, st, s.counter, job, arrives);
      } else {
        assert ActiveOk(clean, cfg, st, s.counter, s.jobs[t]);
        assert Apart(cfg, s.jobs[t], s.jobs[tid]);
        OtherJobUnaffected(clean, cfg, st, s.counter, job, arrives, s.jobs[t]);
      }
    }
  }

  lemma InvEmitIds(clean: Bytes -> Bytes, cfg: Config, s: Sys, tid: nat, arrives: bool)
    requires NewlineMode(cfg) && Inv(clean, cfg, s) && Enabled(cfg, s, Emit(tid, arrives))
    ensures IdsDistinct(cfg, Next(cfg, s, Emit(tid, arrives)))
  {
    hide AfterWrite, Writes, Built, Owned, Decoded, IsChunked, Reported, Parked, Saved, UpTo;
    var s' := Next(cfg, s, Emit(tid, arrives));
    assert ActiveOk(clean, cfg, Decoded(clean, s), s.counter, s.jobs[tid]);
    forall t, u | t in s'.jobs && u in s'.jobs && t != u
      ensures Apart(cfg, s'.jobs[t], s'.jobs[u])
    {
      assert Apart(cfg, s.jobs[t], s.jobs[u]);
    }
    forall t, i | t in s'.jobs && 0 <= i < |s'.finished|
      ensures Apart(cfg, s'.jobs[t], s'.finished[i])
    {
      if i < |s.finished| {
        assert Apart(cfg, s.jobs[t], s.finished[i]);
      } else {
        assert Apart(cfg, s.jobs[t], s.jobs[tid]);
      }
    }
  }

  /** Whatever the table holds after a write belonged there before, or to the trace just written. */
  lemma InvEmitOwners(clean: Bytes -> Bytes, cfg: Config, s: Sys, tid: nat, arrives: bool, id: nat)
    requires NewlineMode(cfg) && Inv(clean, cfg, s) && Enabled(cfg, s, Emit(tid, arrives))
    requires id in AfterWrite(clean, cfg, Decoded(clean, s), s.jobs[tid], arrives).chunks
    ensures Owned(cfg, Next(cfg, s, Emit(tid, arrives)), id)
  {
    hide Writes, Built, Decoded, IsChunked, Reported, Parked, Saved, UpTo, Report, Kept, IdsDistinct;
    var st, s', job := Decoded(clean, s), Next(cfg, s, Emit(tid, arrives)), s.jobs[tid];
    var job' := job.(next := job.next + 1, got := if arrives then job.got + {job.next} else job.got);
    assert ActiveOk(clean, cfg, st, s.counter, job);
    if arrives && Chunked(cfg, job) && id == job.id {
      assert job'.next < |JobWrites(cfg, job')|;
      assert s'.jobs[tid] == job' && Lingers(cfg, job') by {
        assert job.next in job'.got;
        LastNotYet(job.got, job.next, |JobWrites(cfg, job)|);
      }
    } else {
      assert Owned(cfg, s, id);
      if t :| t in s.jobs && s.jobs[t].id == id && Lingers(cfg, s.jobs[t]) {
        if t != tid {
          assert t in s'.jobs && s'.jobs[t] == s.jobs[t];
        } else {
          assert !arrives && Lingers(cfg, job');
          if job'.next == |JobWrites(cfg, job)| {
            assert s'.finished[|s.finished|] == job';
          } else {
            assert s'.jobs[tid] == job';
          }
        }
      } else {
        var i :| 0 <= i < |s.finished| && s.finished[i].id == id && Lingers(cfg, s.finished[i]);
        assert s'.finished[i] == s.finished[i];
      }
    }
  }

  lemma LastNotYet(got: set<nat>, next: nat, n: nat)
    requires got <= UpTo(next) && next + 1 < n
    ensures n - 1 !in got + {next}
  {
  }

  lemma InvEmitReports(clean: Bytes -> Bytes, cfg: Config, s: Sys, tid: nat, arrives: bool)
    requires NewlineMode(cfg) && Inv(clean, cfg, s) && Enabled(cfg, s, Emit(tid, arrives))
    ensures var st' := AfterWrite(clean, cfg, Decoded(clean, s), s.jobs[tid], arrives);
            && st'.stack == []
            && st'.stacks == Reported(clean, cfg, Next(cfg, s, Emit(tid, arrives)).finished)
  {
    hide Built, Decoded, IsChunked, Writes, Parked, Saved, Key, Kept, IdsDistinct, Owned, Reported, UpTo, ActiveOk;
    var st, s', job := Decoded(clean, s), Next(cfg, s, Emit(tid, arrives)), s.jobs[tid];
    var job' := job.(next := job.next + 1, got := if arrives then job.got + {job.next} else job.got);
    assert ActiveOk(clean, cfg, st, s.counter, job);
    if job'.next == |JobWrites(cfg, job)| {
      ReportedSnoc(clean, cfg, s.finished, job');
      if !arrives {
        LostMeansIncomplete(clean, cfg, st, s.counter, job);
      }
    } else {
      OneWrite(cfg, job);
      NextWithin(clean, cfg, st, s.counter, job);
    }
  }

  lemma ReportedSnoc(clean: Bytes -> Bytes, cfg: Config, jobs: seq<Job>, job: Job)
    requires cfg.Valid()
    ensures Reported(clean, cfg, jobs + [job]) ==
            if Complete(cfg, job) then Report(Reported(clean, cfg, jobs), KeptNames(clean, cfg, job))
            else Reported(clean, cfg, jobs)
  {
    hide Complete, KeptNames, Key;
    assert (jobs + [job])[..|jobs|] == jobs;
  }

  lemma NextWithin(clean: Bytes -> Bytes, cfg: Config, st: State, counter: nat, job: Job)
    requires ActiveOk(clean, cfg, st, counter, job)
    ensures job.next < |JobWrites(cfg, job)|
  {
    hide JobWrites;
  }

  /** A trace whose last write is lost has not arrived in full. */
  lemma LostMeansIncomplete(clean: Bytes -> Bytes, cfg: Config, st: State, counter: nat, job: Job)
    requires ActiveOk(clean, cfg, st, counter, job)
    ensures !Complete(cfg, job.(next := job.next + 1))
  {
    hide Built, Writes, UpTo;
    assert job.next !in job.got && job.next in UpTo(|JobWrites(cfg, job)|);
  }

  lemma OneWrite(cfg: Config, job: Job)
    ensures !Chunked(cfg, job) ==> |JobWrites(cfg, job)| == 1
  {
  }

  lemma InvEmit(clean: Bytes -> Bytes, cfg: Config, s: Sys, tid: nat, arrives: bool)
    requires NewlineMode(cfg) && Inv(clean, cfg, s) && Enabled(cfg, s, Emit(tid, arrives))
    ensures Inv(clean, cfg, Next(cfg, s, Emit(tid, arrives)))
  {
    hide AfterWrite, Decoded, ActiveOk, IdsDistinct, Owned, Reported;
    DecodedAfterEmit(clean, cfg, s, tid, arrives);
    InvEmitJobs(clean, cfg, s, tid, arrives);
    InvEmitIds(clean, cfg, s, tid, arrives);
    InvEmitReports(clean, cfg, s, tid, arrives);
    forall id | id in Decoded(clean, Next(cfg, s, Emit(tid, arrives))).chunks
      ensures Owned(cfg, Next(cfg, s, Emit(tid, arrives)), id)
    {
      InvEmitOwners(clean, cfg, s, tid, arrives, id);
    }
  }

  lemma BeginKeepsOwners(cfg: Config, s: Sys, tid: nat, records: seq<Record>, id: nat)
    requires cfg.Valid() && Enabled(cfg, s, Begin(tid, records)) && Owned(cfg, s, id)
    ensures Owned(cfg, Next(cfg, s, Begin(tid, records)), id)
  {
    hide Built, Writes, Lingers;
    var s' := Next(cfg, s, Begin(tid, records));
    if t :| t in s.jobs && s.jobs[t].id == id && Lingers(cfg, s.jobs[t]) {
      assert s'.jobs[t] == s.jobs[t];
    } else {
      var i :| 0 <= i < |s.finished| && s.finished[i].id == id && Lingers(cfg, s.finished[i]);
      assert s'.finished[i] == s.finished[i];
    }
  }

  lemma InvBegin(clean: Bytes -> Bytes, cfg: Config, s: Sys, tid: nat, records: seq<Record>)
    requires NewlineMode(cfg) && Inv(clean, cfg, s) && Enabled(cfg, s, Begin(tid, records))
    ensures Inv(clean, cfg, Next(cfg, s, Begin(tid, records)))
  {
    hide Built, IsChunked, Reported, Fold, Lines, Writes, UpTo;
    var st, s', job := Decoded(clean, s), Next(cfg, s, Begin(tid, records)), Job(records, s.counter, 0, {});
    if s' != s {
      assert Decoded(clean, s') == st;
      SomeWrite(clean, cfg, job);
      assert s.counter !in st.chunks by { FreshId(clean, cfg, s); }
      assert Chunked(cfg, job) ==> Saved(st, job.id) == Parked(clean, cfg, job);
      forall t | t in s'.jobs
        ensures ActiveOk(clean, cfg, st, s'.counter, s'.jobs[t])
      {
        if t != tid {
          assert ActiveOk(clean, cfg, st, s.counter, s.jobs[t]);
        }
      }
      forall t, u | t in s'.jobs && u in s'.jobs && t != u
        ensures Apart(cfg, s'.jobs[t], s'.jobs[u])
      {
        assert t != tid ==> ActiveOk(clean, cfg, st, s.counter, s.jobs[t]);
        assert u != tid ==> ActiveOk(clean, cfg, st, s.counter, s.jobs[u]);
        assert t != tid && u != tid ==> Apart(cfg, s.jobs[t], s.jobs[u]);
      }
      forall t, i | t in s'.jobs && 0 <= i < |s'.finished|
        ensures Apart(cfg, s'.jobs[t], s'.finished[i])
      {
        assert t != tid ==> Apart(cfg, s.jobs[t], s.finished[i]);
      }
      forall id | id in st.chunks
        ensures Owned(cfg, s', id)
      {
        BeginKeepsOwners(cfg, s, tid, records, id);
      }
    }
  }

  lemma SomeWrite(clean: Bytes -> Bytes, cfg: Config, job: Job)
    requires NewlineMode(cfg) && Buffer(cfg, job).bytes != []
    ensures |JobWrites(cfg, job)| > 0
  {
    hide Built, ChunkBodies, NamesOf, PlainLines, KeptNames;
    if Chunked(cfg, job) {
      ChunksCarryKeptNames(clean, cfg, job);
    }
  }

  /** The next id is not in the table: everything there was drawn earlier. */
  lemma FreshId(clean: Bytes -> Bytes, cfg: Config, s: Sys)
    requires cfg.Valid() && Inv(clean, cfg, s)
    ensures s.counter !in Decoded(clean, s).chunks
  {
    hide Built, IsChunked, Reported, Decoded, Writes, UpTo, Apart;
    var st := Decoded(clean, s);
    forall id | id in st.chunks
      ensures id < s.counter
    {
      assert Owned(cfg, s, id);
      if t :| t in s.jobs && s.jobs[t].id == id && Lingers(cfg, s.jobs[t]) {
        assert ActiveOk(clean, cfg, st, s.counter, s.jobs[t]);
      } else {
        var i :| 0 <= i < |s.finished| && s.finished[i].id == id && Lingers(cfg, s.finished[i]);
      }
    }
  }

  lemma {:induction false} InvAlways(clean: Bytes -> Bytes, cfg: Config, run: seq<Action>)
    requires NewlineMode(cfg)
    ensures Inv(clean, cfg, After(cfg, run))
  {
    hide Inv, Enabled, Next;
    if run == [] {
      InvIdle(clean, cfg);
    } else {
      var s, a := After(cfg, run[..|run| - 1]), run[|run| - 1];
      InvAlways(clean, cfg, run[..|run| - 1]);
      if Enabled(cfg, s, a) {
        match a
        case Begin(tid, records) => InvBegin(clean, cfg, s, tid, records);
        case Emit(tid, arrives) => InvEmit(clean, cfg, s, tid, arrives);
      }
    }
  }

  lemma InvIdle(clean: Bytes -> Bytes, cfg: Config)
    requires NewlineMode(cfg)
    ensures Inv(clean, cfg, IDLE)
  {
    NoLines();
  }

  // ---------- the results ----------

  /** Whatever is lost and however the threads interleave, the decoder counts exactly the finished
      traces that arrived in full, each by its kept frames, root first. */
  lemma OnlyCompleteTracesAreReported(clean: Bytes -> Bytes, cfg: Config, run: seq<Action>)
    requires NewlineMode(cfg)
    ensures Decode(clean, After(cfg, run).stream) == Reported(clean, cfg, After(cfg, run).finished)
  {
    hide Fold, After, Reported, ActiveOk, IdsDistinct, Owned;
    InvAlways(clean, cfg, run);
  }

  /** The table holds only traces under way and traces whose closing chunk was lost. */
  lemma TableHoldsOnlyOpenTraces(clean: Bytes -> Bytes, cfg: Config, run: seq<Action>, id: nat)
    requires NewlineMode(cfg) && id in Decoded(clean, After(cfg, run)).chunks
    ensures Owned(cfg, After(cfg, run), id)
  {
    hide Fold, After, Reported, ActiveOk, IdsDistinct, Owned;
    InvAlways(clean, cfg, run);
  }

  ghost function EveryTrace(clean: Bytes -> Bytes, cfg: Config, jobs: seq<Job>): multiset<Bytes>
    requires cfg.Valid()
  {
    if jobs == [] then multiset{}
    else
      var before, names := EveryTrace(clean, cfg, jobs[..|jobs| - 1]), KeptNames(clean, cfg, jobs[|jobs| - 1]);
      if names == [] then before else before + multiset{Key(names)}
  }

  predicate Lossless(run: seq<Action>) {
    forall i :: 0 <= i < |run| && run[i].Emit? ==> run[i].arrives
  }

  /** Every write tried so far has arrived. */
  ghost predicate GotAll(cfg: Config, s: Sys) {
    && (forall t :: t in s.jobs ==> s.jobs[t].got == UpTo(s.jobs[t].next))
    && forall i :: 0 <= i < |s.finished| ==> Complete(cfg, s.finished[i])
  }

  lemma GotAllNext(cfg: Config, s: Sys, a: Action)
    requires GotAll(cfg, s) && Enabled(cfg, s, a) && (a.Emit? ==> a.arrives)
    ensures GotAll(cfg, Next(cfg, s, a))
  {
    hide Built, Writes, IsChunked;
    if a.Emit? {
      assert s.jobs[a.tid].got + {s.jobs[a.tid].next} == UpTo(s.jobs[a.tid].next + 1);
    }
  }

  lemma {:induction false} LosslessGotAll(cfg: Config, run: seq<Action>)
    requires Lossless(run)
    ensures GotAll(cfg, After(cfg, run))
  {
    hide Enabled, Next, UpTo, Complete;
    if run != [] {
      var s, a := After(cfg, run[..|run| - 1]), run[|run| - 1];
      LosslessGotAll(cfg, run[..|run| - 1]);
      if Enabled(cfg, s, a) {
        GotAllNext(cfg, s, a);
      }
    }
  }

  lemma {:induction false} CompleteMeansEvery(clean: Bytes -> Bytes, cfg: Config, jobs: seq<Job>)
    requires cfg.Valid() && forall i :: 0 <= i < |jobs| ==> Complete(cfg, jobs[i])
    ensures Reported(clean, cfg, jobs) == EveryTrace(clean, cfg, jobs)
  {
    hide Complete, KeptNames, Key;
    if jobs != [] {
      CompleteMeansEvery(clean, cfg, jobs[..|jobs| - 1]);
    }
  }

  // Every trace that was begun is either under way or finished, once.

  ghost function UnderWay(jobs: map<nat, Job>): multiset<seq<Record>>
    decreases |jobs|
  {
    if jobs == map[] then multiset{}
    else
      var t :| t in jobs;
      UnderWay(jobs - {t}) + multiset{jobs[t].records}
  }

  function FinishedRecords(jobs: seq<Job>): multiset<seq<Record>> {
    if jobs == [] then multiset{}
    else FinishedRecords(jobs[..|jobs| - 1]) + multiset{jobs[|jobs| - 1].records}
  }

  lemma UnderWayPicks(jobs: map<nat, Job>) returns (u: nat)
    requires jobs != map[]
    ensures u in jobs && UnderWay(jobs) == UnderWay(jobs - {u}) + multiset{jobs[u].records}
  {
    u :| u in jobs && UnderWay(jobs) == UnderWay(jobs - {u}) + multiset{jobs[u].records};
  }

  lemma {:induction false} UnderWayWithout(jobs: map<nat, Job>, t: nat)
    requires t in jobs
    ensures UnderWay(jobs) == UnderWay(jobs - {t}) + multiset{jobs[t].records}
    decreases |jobs|
  {
    hide UnderWay;
    var u := UnderWayPicks(jobs);
    if u != t {
      UnderWayWithout(jobs - {u}, t);
      UnderWayWithout(jobs - {t}, u);
      assert jobs - {u} - {t} == jobs - {t} - {u};
    }
  }

  ghost predicate Conserved(s: Sys) {
    s.begun == UnderWay(s.jobs) + FinishedRecords(s.finished)
  }

  lemma ConservedBegin(cfg: Config, s: Sys, tid: nat, records: seq<Record>)
    requires Conserved(s) && Enabled(cfg, s, Begin(tid, records))
    ensures Conserved(Next(cfg, s, Begin(tid, records)))
  {
    hide Built, UnderWay, FinishedRecords, IsChunked;
    var s' := Next(cfg, s, Begin(tid, records));
    if s' != s {
      assert s'.jobs - {tid} == s.jobs;
      UnderWayWithout(s'.jobs, tid);
    }
  }

  lemma ConservedEmit(cfg: Config, s: Sys, tid: nat, arrives: bool)
    requires Conserved(s) && Enabled(cfg, s, Emit(tid, arrives))
    ensures Conserved(Next(cfg, s, Emit(tid, arrives)))
  {
    hide Writes, Built, UnderWay, FinishedRecords;
    var s', job := Next(cfg, s, Emit(tid, arrives)), s.jobs[tid];
    var job' := job.(next := job.next + 1, got := if arrives then job.got + {job.next} else job.got);
    UnderWayWithout(s.jobs, tid);
    if job'.next == |JobWrites(cfg, job)| {
      FinishedSnoc(s.finished, job');
    } else {
      assert s'.jobs - {tid} == s.jobs - {tid};
      UnderWayWithout(s'.jobs, tid);
    }
  }

  lemma FinishedSnoc(jobs: seq<Job>, job: Job)
    ensures FinishedRecords(jobs + [job]) == FinishedRecords(jobs) + multiset{job.records}
  {
    assert (jobs + [job])[..|jobs|] == jobs;
  }

  lemma {:induction false} NothingForgotten(cfg: Config, run: seq<Action>)
    ensures Conserved(After(cfg, run))
  {
    hide Enabled, Next, UnderWay;
    if run == [] {
      NoneUnderWay();
    } else {
      var s, a := After(cfg, run[..|run| - 1]), run[|run| - 1];
      NothingForgotten(cfg, run[..|run| - 1]);
      if Enabled(cfg, s, a) {
        match a
        case Begin(tid, records) => ConservedBegin(cfg, s, tid, records);
        case Emit(tid, arrives) => ConservedEmit(cfg, s, tid, arrives);
      }
    }
  }

  lemma NoneUnderWay()
    ensures UnderWay(map[]) == multiset{}
  {
  }

  /** The round trip: with no write lost and no trace under way, the decoder has counted every trace
      that was begun, and its pending stack and chunk table are empty. */
  lemma RoundTrip(clean: Bytes -> Bytes, cfg: Config, run: seq<Action>)
    requires NewlineMode(cfg) && Lossless(run) && After(cfg, run).jobs == map[]
    ensures Decode(clean, After(cfg, run).stream) == EveryTrace(clean, cfg, After(cfg, run).finished)
    ensures FinishedRecords(After(cfg, run).finished) == After(cfg, run).begun
    ensures Decoded(clean, After(cfg, run)).stack == [] && Decoded(clean, After(cfg, run)).chunks == map[]
  {
    hide Decode, Decoded, After, Reported, EveryTrace, ActiveOk, IdsDistinct, JobWrites, Chunked;
    var s := After(cfg, run);
    OnlyCompleteTracesAreReported(clean, cfg, run);
    LosslessGotAll(cfg, run);
    CompleteMeansEvery(clean, cfg, s.finished);
    InvAlways(clean, cfg, run);
    NothingForgotten(cfg, run);
    NoneUnderWay();
    assert forall i :: 0 <= i < |s.finished| ==> Complete(cfg, s.finished[i]) && !Lingers(cfg, s.finished[i]);
    assert forall id :: id in Decoded(clean, s).chunks ==> Owned(cfg, s, id);
  }
}
