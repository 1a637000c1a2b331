/**
 What the documentation promises about truncation, against what is written: when a truncated trace
 ends with a final chunk that holds only the truncation record, and what that record tells a reader.
 */
module Truncation {
  import opened Text
  import opened TraceFormat
  import opened Records
  import opened Delivery
  import opened Stream

  /** Some record does not reach the output: the builder gave it up, or the chunk writer did. */
  predicate Truncated(cfg: Config, id: nat, b: Buffered) {
    b.truncated || (IsChunked(cfg, b) && LeftOver(cfg, id, 0, b.bytes) != [])
  }

  /** The documented ending: a final chunk with nothing but the truncation record in it. */
  predicate EndsInMarkerChunk(cfg: Config, id: nat, writes: seq<Bytes>) {
    writes != [] && writes[|writes| - 1] == TruncMarker(cfg) + Tail(cfg, id, |writes| - 1, '!')
  }

  // ---------- when the promise is kept ----------

  /** A marker inside a whole write is not a chunk: `1`, not `!`, stands three bytes from its end. */
  lemma WholeWriteIsNoChunk(cfg: Config, id: nat, bytes: Bytes)
    ensures bytes + TruncMarker(cfg) + [cfg.trace] != TruncMarker(cfg) + Tail(cfg, id, 0, '!')
  {
    hide Decimal;
    var w, t := bytes + TruncMarker(cfg) + [cfg.trace], TruncMarker(cfg) + Tail(cfg, id, 0, '!');
    assert w[|w| - 3] == '1' && t[|t| - 3] == '!';
  }

  lemma MarkerChunkIffChunked(cfg: Config, id: nat, b: Buffered)
    requires Truncated(cfg, id, b) && b.bytes != []
    ensures EndsInMarkerChunk(cfg, id, Writes(cfg, id, b)) <==> IsChunked(cfg, b)
  {
    hide Tail, Bodies, LeftOver, TruncMarker;
    if !IsChunked(cfg, b) {
      WholeWriteIsNoChunk(cfg, id, b.bytes);
    }
  }

  /** Under any allocator, a truncated trace ends as documented if and only if its first record was
      kept and what was kept does not fit one write together with the truncation record. */
  lemma TruncationPromise(cfg: Config, id: nat, texts: seq<Bytes>, grants: seq<Grant>)
    requires cfg.Valid() && |grants| == |texts|
    requires Truncated(cfg, id, BuiltUnder(cfg, texts, grants))
    ensures var b := BuiltUnder(cfg, texts, grants);
            EndsInMarkerChunk(cfg, id, Written(cfg, id, b)) <==> FirstKept(texts, grants) && IsChunked(cfg, b)
  {
    hide BuiltUnder, Writes, FirstKept, IsChunked, EndsInMarkerChunk, Truncated;
    NothingKeptIff(cfg, texts, grants);
    var b := BuiltUnder(cfg, texts, grants);
    if b.bytes != [] {
      MarkerChunkIffChunked(cfg, id, b);
    } else {
      assert !EndsInMarkerChunk(cfg, id, []) by { NothingEndsInMarkerChunk(cfg, id); }
    }
  }

  lemma NothingEndsInMarkerChunk(cfg: Config, id: nat)
    ensures !EndsInMarkerChunk(cfg, id, [])
  {
  }

  /** The same when no allocation fails. */
  lemma TruncationPromiseGranted(cfg: Config, id: nat, texts: seq<Bytes>)
    requires cfg.Valid() && Truncated(cfg, id, Built(cfg, texts))
    ensures texts != []
    ensures var b := Built(cfg, texts);
            EndsInMarkerChunk(cfg, id, Written(cfg, id, b)) <==> |texts[0]| + 2 <= MAX_BUFFER && IsChunked(cfg, b)
  {
    hide Truncated, EndsInMarkerChunk, Written, IsChunked;
    if texts == [] {
      NothingIsNotTruncated(cfg, id);
    }
    var grants := seq(|texts|, _ => GRANTED);
    BuiltWhenGranted(cfg, texts, grants);
    TruncationPromise(cfg, id, texts, grants);
  }

  lemma NothingIsNotTruncated(cfg: Config, id: nat)
    requires cfg.Valid()
    ensures !Truncated(cfg, id, Built(cfg, []))
  {
  }

  lemma NothingLeftOver(cfg: Config, id: nat)
    ensures LeftOver(cfg, id, 0, []) == []
  {
  }

  /** The promise for a record too large for a chunk is always kept. */
  lemma OversizedRecordEndsInMarkerChunk(cfg: Config, id: nat, b: Buffered)
    requires IsChunked(cfg, b) && LeftOver(cfg, id, 0, b.bytes) != []
    ensures EndsInMarkerChunk(cfg, id, Written(cfg, id, b))
  {
    hide Tail, TruncMarker;
    NothingLeftOver(cfg, id);
    MarkerChunkIffChunked(cfg, id, b);
  }

  // ---------- inputs that break it ----------

  lemma {:induction false} FramedLength(cfg: Config, texts: seq<Bytes>, n: nat)
    requires forall i :: 0 <= i < |texts| ==> |texts[i]| == n
    ensures |Framed(cfg, texts)| == |texts| * (n + 1)
  {
    hide Strip;
    if texts != [] {
      FramedLength(cfg, texts[1..], n);
    }
  }

  /** With `-b` at its largest, a trace of 32768 or more records of 127 bytes is truncated, and the
      marker goes out inside the one and only write instead of in a chunk of its own. */
  lemma LargeBufferHasNoMarkerChunk(id: nat, texts: seq<Bytes>)
    requires |texts| >= 32768 && forall i :: 0 <= i < |texts| ==> |texts[i]| == 127
    ensures var cfg := Config(MAX_BUFFER, '\n', '\n');
            var b := Built(cfg, texts);
            && b == Buffered(Framed(cfg, texts[..32767]), true)
            && Written(cfg, id, b) == [b.bytes + TruncMarker(cfg) + "\n"]
            && !EndsInMarkerChunk(cfg, id, Written(cfg, id, b))
  {
    hide Framed, Built, Tail;
    var cfg := Config(MAX_BUFFER, '\n', '\n');
    var k := BuiltIsLongestFit(cfg, texts);
    FramedLength(cfg, texts[..k], 127);
    FramedLength(cfg, texts[..32767], 127);
    FramedLength(cfg, texts[..32768], 127);
    assert k == 32767;
    WholeWriteIsNoChunk(cfg, id, Built(cfg, texts).bytes);
  }

  function Repeat(c: char, n: nat): Bytes { seq(n, _ => c) }

  /** Record `i` of a recursion 1024 frames deep, the walk's limit, with 31 variables peeked at in each
      frame: `ff...f` on lines 11 to 14 of one file, with its locals `v`, `vv`, `vvv` and so on. */
  function DeepRecord(i: nat): Record
    requires i < 32768 && |Decimal(i / 32)| <= 4
  {
    var depth := i / 32;
    var line := 10 + |Decimal(depth)|;
    if i % 32 == 0 then Frame(depth, [], Repeat('f', 110 - |Decimal(depth)|), "/srv/app.php", line)
    else Meta(Varpeek, Repeat('v', i % 32) + ("@/srv/app.php:" + (Decimal(line) + (" = " + Repeat('x', 98 - i % 32)))))
  }

  lemma TwoDigits(n: nat)
    requires 10 <= n < 100
    ensures |Decimal(n)| == 2
  {
  }

  lemma FrameTextLength(depth: nat, func: Bytes, file: Bytes, line: nat)
    requires '\0' !in func && '\0' !in file
    ensures |RecordText(Frame(depth, [], func, file, line))| ==
            |Decimal(depth)| + |func| + |file| + |Decimal(line)| + 3
  {
    hide Decimal, IndexOf;
    CStringNul(func);
    CStringNul(file);
  }

  lemma DeepRecordLength(i: nat)
    requires i < 32768
    ensures |Decimal(i / 32)| <= 4 && |RecordText(DeepRecord(i))| == 127
  {
    hide RecordText, Decimal;
    assert Pow10(4) == 10_000;
    DecimalLength(i / 32, 4);
    var digits := |Decimal(i / 32)|;
    TwoDigits(10 + digits);
    if i % 32 == 0 {
      FrameTextLength(i / 32, Repeat('f', 110 - digits), "/srv/app.php", 10 + digits);
    } else {
      PeekTextLength(DeepRecord(i).payload);
    }
  }

  lemma PeekTextLength(payload: Bytes)
    ensures |RecordText(Meta(Varpeek, payload))| == 10 + |payload|
  {
  }

  /** A deep trace with many peeks, written with `-b` at its largest, does not end as documented. */
  lemma DeepTraceBreaksPromise(id: nat) returns (records: seq<Record>)
    ensures |records| == 32768
    ensures forall i :: 0 <= i < |records| ==> |Decimal(i / 32)| <= 4 && records[i] == DeepRecord(i)
    ensures var cfg := Config(MAX_BUFFER, '\n', '\n');
            var b := Built(cfg, Texts(records));
            Truncated(cfg, id, b) && b.bytes != [] && !EndsInMarkerChunk(cfg, id, Written(cfg, id, b))
  {
    hide Built, EndsInMarkerChunk, Written, Framed, RecordText, DeepRecord, Decimal;
    forall i: nat | i < 32768
      ensures |Decimal(i / 32)| <= 4 && |RecordText(DeepRecord(i))| == 127
    {
      DeepRecordLength(i);
    }
    records := seq(32768, i requires 0 <= i < 32768 => DeepRecord(i));
    TextsAt(records);
    var cfg, texts := Config(MAX_BUFFER, '\n', '\n'), Texts(records);
    LargeBufferHasNoMarkerChunk(id, texts);
    FramedLength(cfg, texts[..32767], 127);
  }

  lemma {:induction false} TextsAt(rs: seq<Record>)
    ensures |Texts(rs)| == |rs| && forall i :: 0 <= i < |rs| ==> Texts(rs)[i] == RecordText(rs[i])
  {
    hide RecordText;
    if rs != [] {
      TextsAt(rs[1..]);
    }
  }

  /** Without memory for the first record, body or delimiter, the trace is truncated to nothing: no
      record, no marker and no chunk is written for it, however small it is. */
  lemma RefusedMemoryWritesNothing(cfg: Config, id: nat, texts: seq<Bytes>, grants: seq<Grant>)
    requires cfg.Valid() && |grants| == |texts| > 0 && grants[0] != GRANTED
    ensures var b := BuiltUnder(cfg, texts, grants);
            b == Buffered([], true) && Truncated(cfg, id, b) && Written(cfg, id, b) == []
  {
    hide LeftOver, IsChunked, Framed;
    NothingKeptIff(cfg, texts, grants);
    var k := BuiltUnderKeepsPrefix(cfg, texts, grants);
    hide BuiltUnder;
  }

  // ---------- what the marker tells a reader ----------

  const MARK: Bytes := "# truncated = 1"

  predicate Marked(bytes: Bytes) { MARK in Lines(bytes) }

  lemma MarkedConcat(a: Bytes, b: Bytes)
    requires Terminated(a)
    ensures Marked(a + b) <==> Marked(a) || Marked(b)
  {
    hide Lines;
    LinesConcat(a, b);
  }

  lemma LabelIsNotMark(l: Label, rest: Bytes)
    ensures LabelText(l) + rest != MARK
  {
    var i := if l.TraceTs? then 4 else if l.Ts? then 3 else 2;
    assert (LabelText(l) + rest)[i] == LabelText(l)[i] != MARK[i];
  }

  /** No record can be taken for the truncation record. */
  lemma RecordIsNotMark(cfg: Config, r: Record)
    requires NewlineMode(cfg)
    ensures Strip(cfg, RecordText(r)) != MARK
  {
    hide Strip, Blot;
    StripNewlineMode(cfg, RecordText(r));
    match r
    case Frame(depth, cls, func, file, lineno) =>
      hide Qualified, Location;
      FrameLineShape(depth, cls, func, file, lineno);
      assert IsDigit(Blot(RecordText(r), '\n')[0]);
    case Meta(kind, payload) =>
      LabelIsNotTraceId(kind);
      BlotConcat(LabelText(kind), payload, '\n');
      BlotAbsent(LabelText(kind), '\n');
      LabelIsNotMark(kind, Blot(payload, '\n'));
  }

  lemma {:induction false} RecordsUnmarked(cfg: Config, rs: seq<Record>)
    requires NewlineMode(cfg)
    ensures Terminated(Framed(cfg, Texts(rs))) && !Marked(Framed(cfg, Texts(rs)))
  {
    hide Strip, RecordText;
    FramedWhole(cfg, Texts(rs));
    if rs != [] {
      var body, rest := Strip(cfg, RecordText(rs[0])), Framed(cfg, Texts(rs[1..]));
      assert Framed(cfg, Texts(rs)) == (body + "\n") + rest;
      hide Framed, Lines;
      RecordsUnmarked(cfg, rs[1..]);
      StripRemovesFrameDelimiter(cfg, RecordText(rs[0]));
      RecordIsNotMark(cfg, rs[0]);
      OneLine(body);
      MarkedConcat(body + "\n", rest);
    }
  }

  lemma TailUnmarked(cfg: Config, id: nat, k: nat, mark: char)
    requires NewlineMode(cfg) && mark != '\n'
    ensures Terminated(Tail(cfg, id, k, mark)) && !Marked(Tail(cfg, id, k, mark))
  {
    hide Lines, Decimal;
    TailLines(cfg, id, k, mark);
    assert TailLine(id, k, mark)[4] == 'a' != MARK[4];
  }

  /** Whole lines carry the marker exactly when one of their parts does. */
  lemma {:induction false} MarkedFlatten(parts: seq<Bytes>)
    requires forall i :: 0 <= i < |parts| ==> Terminated(parts[i])
    ensures Terminated(Flatten(parts))
    ensures Marked(Flatten(parts)) <==> exists i :: 0 <= i < |parts| && Marked(parts[i])
  {
    hide Marked;
    if parts == [] {
      assert !Marked(Flatten(parts)) by { NothingMarked(); }
    } else {
      var rest := parts[1..];
      MarkedFlatten(rest);
      MarkedConcat(parts[0], Flatten(rest));
      if i :| 0 <= i < |parts| && Marked(parts[i]) {
        assert i > 0 ==> Marked(rest[i - 1]);
      }
      if i :| 0 <= i < |rest| && Marked(rest[i]) {
        assert Marked(parts[i + 1]);
      }
    }
  }

  lemma NothingMarked()
    ensures !Marked([])
  {
  }

  lemma MarkerMarked(cfg: Config)
    requires NewlineMode(cfg)
    ensures Terminated(TruncMarker(cfg)) && Marked(TruncMarker(cfg))
  {
    hide Lines;
    assert TruncMarker(cfg) == MARK + "\n";
    OneLine(MARK);
    assert MARK in [MARK];
  }

  lemma BodiesUnmarked(cfg: Config, id: nat, bytes: Bytes)
    requires NewlineMode(cfg) && WholeRecords(cfg, bytes) && !Marked(bytes)
    ensures forall i :: 0 <= i < |Bodies(cfg, id, 0, bytes)| ==>
              Terminated(Bodies(cfg, id, 0, bytes)[i]) && !Marked(Bodies(cfg, id, 0, bytes)[i])
  {
    var bodies, left := Bodies(cfg, id, 0, bytes), LeftOver(cfg, id, 0, bytes);
    BodiesAreGood(cfg, id, 0, bytes);
    BodiesCoverPrefix(cfg, id, 0, bytes);
    assert forall i :: 0 <= i < |bodies| ==> GoodBody(cfg, id, 0 + i, bodies[i]);
    assert forall i :: 0 <= i < |bodies| ==> Terminated(bodies[i]);
    hide Marked, Bodies, LeftOver;
    MarkedFlatten(bodies);
    MarkedConcat(Flatten(bodies), left);
  }

  lemma ChunksMarked(cfg: Config, id: nat, bodies: seq<Bytes>)
    requires NewlineMode(cfg) && forall i :: 0 <= i < |bodies| ==> Terminated(bodies[i])
    ensures Marked(Flatten(Numbered(cfg, id, bodies, true))) <==> exists i :: 0 <= i < |bodies| && Marked(bodies[i])
  {
    hide Marked, Tail;
    var writes := Numbered(cfg, id, bodies, true);
    hide Numbered;
    forall i | 0 <= i < |writes|
      ensures Terminated(writes[i]) && (Marked(writes[i]) <==> Marked(bodies[i]))
    {
      var mark := if i == |bodies| - 1 then '!' else '~';
      TailUnmarked(cfg, id, i, mark);
      MarkedConcat(bodies[i], Tail(cfg, id, i, mark));
    }
    MarkedFlatten(writes);
  }

  /** The truncation record is read off the writes exactly when the trace was truncated. */
  lemma MarkedIffTruncated(cfg: Config, id: nat, b: Buffered)
    requires NewlineMode(cfg) && WholeRecords(cfg, b.bytes) && !Marked(b.bytes)
    ensures Marked(Flatten(Writes(cfg, id, b))) <==> Truncated(cfg, id, b)
  {
    hide Marked, Bodies, LeftOver, Numbered, TruncMarker;
    MarkerMarked(cfg);
    if IsChunked(cfg, b) {
      var bodies, all := Bodies(cfg, id, 0, b.bytes), ChunkBodies(cfg, id, b);
      BodiesUnmarked(cfg, id, b.bytes);
      assert forall i :: 0 <= i < |all| ==> Terminated(all[i]);
      ChunksMarked(cfg, id, all);
      assert Truncated(cfg, id, b) ==> Marked(all[|all| - 1]);
    } else {
      WholeWriteMarked(cfg, b);
    }
  }

  lemma WholeWriteMarked(cfg: Config, b: Buffered)
    requires NewlineMode(cfg) && WholeRecords(cfg, b.bytes) && !Marked(b.bytes)
    ensures Marked(Flatten([b.bytes + (if b.truncated then TruncMarker(cfg) else []) + [cfg.trace]])) <==> b.truncated
  {
    hide Lines;
    var head := b.bytes + if b.truncated then TruncMarker(cfg) else [];
    assert Flatten([head + "\n"]) == head + "\n";
    MarkerMarked(cfg);
    NothingMarked();
    MarkedConcat(b.bytes, if b.truncated then TruncMarker(cfg) else []);
    MarkedConcat(head, "\n");
    OneLine([]);
    assert [] + "\n" == "\n";
  }

  // ---------- records dropped ----------

  lemma FramedGrows(cfg: Config, texts: seq<Bytes>, j: nat)
    requires j < |texts|
    ensures |Framed(cfg, texts[..j])| < |Framed(cfg, texts)|
  {
    hide Strip;
    assert texts == texts[..j] + texts[j..];
    FramedConcat(cfg, texts[..j], texts[j..]);
    assert |Framed(cfg, texts[j..])| > 0;
  }

  /** Under any allocator, the written part is all of the records exactly when nothing was truncated. */
  lemma AllWrittenIffNotTruncated(cfg: Config, id: nat, texts: seq<Bytes>, grants: seq<Grant>)
    requires cfg.Valid() && |grants| == |texts|
    ensures var b := BuiltUnder(cfg, texts, grants);
            Covered(cfg, id, b) == Framed(cfg, texts) <==> !Truncated(cfg, id, b)
  {
    hide Framed, Bodies, LeftOver, IsChunked;
    var b := BuiltUnder(cfg, texts, grants);
    var k := BuiltUnderKeepsPrefix(cfg, texts, grants);
    hide BuiltUnder;
    BodiesCoverPrefix(cfg, id, 0, b.bytes);
    assert texts[..|texts|] == texts;
    if k < |texts| {
      FramedGrows(cfg, texts, k);
    }
  }

  /** Under any allocator, all the records of a trace are in the writes if and only if the writes have
      no truncation record among their lines, except that a trace truncated to nothing has no writes. */
  lemma MarkedIffRecordsDropped(cfg: Config, id: nat, records: seq<Record>, grants: seq<Grant>)
    requires NewlineMode(cfg) && |grants| == |Texts(records)|
    ensures var b := BuiltUnder(cfg, Texts(records), grants);
            var writes := Written(cfg, id, b);
            Covered(cfg, id, b) != Framed(cfg, Texts(records)) <==>
            MARK in Lines(Flatten(writes)) || (writes == [] && records != [])
  {
    hide Framed, Covered, Lines, Truncated, Writes, BuiltUnder, WholeRecords, RecordText;
    var texts := Texts(records);
    var b := BuiltUnder(cfg, texts, grants);
    AllWrittenIffNotTruncated(cfg, id, texts, grants);
    TextsTake(records, 0);
    if b.bytes == [] {
      NothingMarked();
      EmptyTruncatedIff(cfg, id, texts, grants);
      assert Flatten<char>([]) == [] by { FlattenNothing(); }
    } else {
      BufferUnmarked(cfg, records, grants);
      MarkedIffTruncated(cfg, id, b);
      WritesSomething(cfg, id, b);
    }
  }

  lemma BufferUnmarked(cfg: Config, records: seq<Record>, grants: seq<Grant>)
    requires NewlineMode(cfg) && |grants| == |Texts(records)|
    ensures WholeRecords(cfg, BuiltUnder(cfg, Texts(records), grants).bytes)
    ensures !Marked(BuiltUnder(cfg, Texts(records), grants).bytes)
  {
    hide Framed, Marked, RecordText;
    var k := BuiltUnderKeepsPrefix(cfg, Texts(records), grants);
    TextsTake(records, k);
    RecordsUnmarked(cfg, records[..k]);
  }

  lemma WritesSomething(cfg: Config, id: nat, b: Buffered)
    requires b.bytes != []
    ensures Writes(cfg, id, b) != []
  {
    BodiesCoverPrefix(cfg, id, 0, b.bytes);
  }

  /** An empty buffer is all there was to write only if there were no records. */
  lemma EmptyTruncatedIff(cfg: Config, id: nat, texts: seq<Bytes>, grants: seq<Grant>)
    requires cfg.Valid() && |grants| == |texts| && BuiltUnder(cfg, texts, grants).bytes == []
    ensures Truncated(cfg, id, BuiltUnder(cfg, texts, grants)) <==> texts != []
  {
    hide Framed;
    var k := BuiltUnderKeepsPrefix(cfg, texts, grants);
    hide BuiltUnder;
    if k > 0 {
      FramedGrows(cfg, texts[..k], 0);
    }
  }

  /** The records the round trip calls kept are all of them exactly when no marker says otherwise. */
  lemma KeptAllIffUnmarked(cfg: Config, id: nat, records: seq<Record>)
    requires NewlineMode(cfg)
    ensures var writes := Written(cfg, id, Built(cfg, Texts(records)));
            Kept(cfg, id, records) != records <==>
            MARK in Lines(Flatten(writes)) || (writes == [] && records != [])
  {
    hide Framed, Covered, Lines, Truncated, Writes, RecordText;
    var texts, kept := Texts(records), Kept(cfg, id, records);
    var grants := seq(|texts|, _ => GRANTED);
    BuiltWhenGranted(cfg, texts, grants);
    MarkedIffRecordsDropped(cfg, id, records, grants);
    hide Built, BuiltUnder;
    KeptExists(cfg, id, records);
    TextsTake(records, |kept|);
    assert kept == records[..|kept|] && texts[..|texts|] == texts;
    if |kept| < |texts| {
      FramedGrows(cfg, texts, |kept|);
    }
  }
}
