/**
 The trace format of `event_fout.c`, on values: how record texts are cleaned and
 collected under the buffer ceiling, and how a collected trace is cut into writes.
 */
module TraceFormat {
  import opened Text

  const MAX_BUFFER: nat := 4 * 1024 * 1024

  /** `-b`, the byte that ends a record and the byte that ends a trace. */
  datatype Config = Config(size: nat, frame: char, trace: char) {
    /** Option parsing admits no other delimiters: newlines, or tabs with `-1`. */
    predicate Valid() {
      size >= 1 && (frame == '\n' || frame == '\t') && trace == '\n'
    }
  }

  // ---------- cleaning one record ----------

  /** Frame delimiters are overwritten first; the trace delimiter only after the last of them. */
  function Strip(cfg: Config, text: Bytes): (r: Bytes)
    ensures |r| == |text|
  {
    var last := LastIndexOf(text, cfg.frame);
    seq(|text|, i requires 0 <= i < |text| => Cleaned(cfg, text[i], i <= last))
  }

  /** What becomes of one byte, depending on whether a frame delimiter stands at or after it. */
  function Cleaned(cfg: Config, c: char, beforeFrameDelimiter: bool): char {
    if c == (if beforeFrameDelimiter then cfg.frame else cfg.trace) then '?' else c
  }

  /** No frame delimiter survives inside a record body, in either mode. */
  lemma StripRemovesFrameDelimiter(cfg: Config, text: Bytes)
    requires cfg.Valid()
    ensures cfg.frame !in Strip(cfg, text)
  {
    hide LastIndexOf;
    forall i | 0 <= i < |text|
      ensures Strip(cfg, text)[i] != cfg.frame
    {
      assert i > LastIndexOf(text, cfg.frame) ==> text[i] != cfg.frame;
    }
  }

  /** A trace delimiter survives exactly when it stood before some frame delimiter of another kind. */
  lemma StripRemovesTraceDelimiter(cfg: Config, text: Bytes)
    requires cfg.Valid()
    ensures cfg.trace !in Strip(cfg, text) <==>
            cfg.frame == cfg.trace
            || forall i, j :: 0 <= i < j < |text| && text[i] == cfg.trace ==> text[j] != cfg.frame
  {
    hide LastIndexOf;
    var last, r := LastIndexOf(text, cfg.frame), Strip(cfg, text);
    if cfg.frame == cfg.trace {
      StripRemovesFrameDelimiter(cfg, text);
    } else {
      assert forall i :: 0 <= i < |r| ==> (r[i] == cfg.trace <==> i <= last && text[i] == cfg.trace);
      if forall i, j :: 0 <= i < j < |text| && text[i] == cfg.trace ==> text[j] != cfg.frame {
        assert forall i :: 0 <= i < last && text[i] == cfg.trace ==> text[last] != cfg.frame;
      } else {
        var i, j :| 0 <= i < j < |text| && text[i] == cfg.trace && text[j] == cfg.frame;
        assert i <= last && r[i] == cfg.trace;
      }
    }
  }

  /** In single-line mode a newline ahead of a tab gets through, and would end the trace early. */
  lemma NewlineCanSurviveSingleLineMode()
    ensures '\n' in Strip(Config(4096, '\t', '\n'), "a\nb\tc")
  {
    var cfg, text := Config(4096, '\t', '\n'), "a\nb\tc";
    hide LastIndexOf;
    assert text[1] == '\n' && text[3] == '\t';
    assert LastIndexOf(text, '\t') >= 3;
    assert Strip(cfg, text)[1] == '\n';
  }

  /** Cleaning overwrites delimiters and touches nothing else. */
  lemma StripTouchesOnlyDelimiters(cfg: Config, text: Bytes, i: nat)
    requires i < |text|
    ensures Strip(cfg, text)[i] == text[i]
            || (Strip(cfg, text)[i] == '?' && (text[i] == cfg.frame || text[i] == cfg.trace))
  {
    hide LastIndexOf;
  }

  /** In newline mode cleaning is just overwriting newlines. */
  lemma StripNewlineMode(cfg: Config, text: Bytes)
    requires cfg.frame == cfg.trace
    ensures Strip(cfg, text) == Blot(text, cfg.frame)
  {
    hide LastIndexOf;
    assert forall i :: LastIndexOf(text, cfg.frame) < i < |text| ==> text[i] != cfg.frame;
  }

  // ---------- collecting records ----------

  datatype Buffered = Buffered(bytes: Bytes, truncated: bool)

  const EMPTY := Buffered([], false)

  /** One `event_handler_fout_snprintf` call; `room` says whether the text found room. */
  function AppendText(cfg: Config, b: Buffered, text: Bytes, room: bool): Buffered {
    if b.truncated then b
    else if room then b.(bytes := b.bytes + text)
    else Buffered(b.bytes[..LastIndexOf(b.bytes, cfg.frame) + 1], true)
  }

  /** Text of length `n` and a NUL still fit behind `len` bytes. */
  predicate Fits(len: nat, n: nat) { len + n + 1 <= MAX_BUFFER }

  /** Whether memory is to be had for the body of a record and for its delimiter. */
  datatype Grant = Grant(body: bool, delim: bool)

  const GRANTED := Grant(true, true)

  /** A record event: the cleaned body, then its delimiter, as two separate appends. */
  function AppendRecordUnder(cfg: Config, b: Buffered, text: Bytes, g: Grant): Buffered {
    var c := AppendText(cfg, b, Strip(cfg, text), Fits(|b.bytes|, |text|) && g.body);
    AppendText(cfg, c, [cfg.frame], Fits(|c.bytes|, 1) && g.delim)
  }

  /** A record event when no allocation fails. */
  function AppendRecord(cfg: Config, b: Buffered, text: Bytes): Buffered {
    AppendRecordUnder(cfg, b, text, GRANTED)
  }

  /** The buffer after STACK_BEGIN and then one event per text. */
  function Built(cfg: Config, texts: seq<Bytes>): Buffered {
    if texts == [] then EMPTY
    else AppendRecord(cfg, Built(cfg, texts[..|texts| - 1]), texts[|texts| - 1])
  }

  /** The buffer after STACK_BEGIN and one event per text, whatever the allocator does. */
  function BuiltUnder(cfg: Config, texts: seq<Bytes>, grants: seq<Grant>): Buffered
    requires |grants| == |texts|
  {
    if texts == [] then EMPTY
    else
      var n := |texts| - 1;
      AppendRecordUnder(cfg, BuiltUnder(cfg, texts[..n], grants[..n]), texts[n], grants[n])
  }

  lemma {:induction false} BuiltWhenGranted(cfg: Config, texts: seq<Bytes>, grants: seq<Grant>)
    requires |grants| == |texts| && forall i :: 0 <= i < |grants| ==> grants[i] == GRANTED
    ensures BuiltUnder(cfg, texts, grants) == Built(cfg, texts)
  {
    hide AppendRecordUnder;
    if texts != [] {
      BuiltWhenGranted(cfg, texts[..|texts| - 1], grants[..|texts| - 1]);
    }
  }

  /** A complete record: its cleaned body and its delimiter. */
  function RecordBytes(cfg: Config, text: Bytes): Bytes { Strip(cfg, text) + [cfg.frame] }

  function Framed(cfg: Config, texts: seq<Bytes>): Bytes {
    if texts == [] then [] else RecordBytes(cfg, texts[0]) + Framed(cfg, texts[1..])
  }

  lemma {:induction false} FramedConcat(cfg: Config, a: seq<Bytes>, b: seq<Bytes>)
    ensures Framed(cfg, a + b) == Framed(cfg, a) + Framed(cfg, b)
  {
    hide RecordBytes;
    if a == [] {
      assert a + b == b;
    } else {
      FramedConcat(cfg, a[1..], b);
      assert (a + b)[0] == a[0] && (a + b)[1..] == a[1..] + b;
      ConcatAssoc(RecordBytes(cfg, a[0]), Framed(cfg, a[1..]), Framed(cfg, b));
    }
  }

  lemma FramedSnoc(cfg: Config, a: seq<Bytes>, t: Bytes)
    ensures Framed(cfg, a + [t]) == Framed(cfg, a) + RecordBytes(cfg, t)
  {
    FramedConcat(cfg, a, [t]);
    assert Framed(cfg, [t]) == RecordBytes(cfg, t) + Framed(cfg, []);
  }

  /** Bytes that end where a record ends. */
  predicate WholeRecords(cfg: Config, bytes: Bytes) {
    bytes == [] || bytes[|bytes| - 1] == cfg.frame
  }

  lemma FramedWhole(cfg: Config, texts: seq<Bytes>)
    ensures WholeRecords(cfg, Framed(cfg, texts))
  {
    if texts != [] {
      FramedSnoc(cfg, texts[..|texts| - 1], texts[|texts| - 1]);
      assert texts[..|texts| - 1] + [texts[|texts| - 1]] == texts;
    }
  }

  /** `k` records fit under the ceiling and no longer prefix does. */
  ghost predicate LongestFit(cfg: Config, texts: seq<Bytes>, k: nat) {
    && k <= |texts|
    && |Framed(cfg, texts[..k])| + 1 <= MAX_BUFFER
    && forall j :: k < j <= |texts| ==> |Framed(cfg, texts[..j])| + 1 > MAX_BUFFER
  }

  /** A half-written record is given up as a whole: truncation falls back to the last record end. */
  lemma TruncateKeepsWholeRecords(cfg: Config, whole: Bytes, body: Bytes)
    requires WholeRecords(cfg, whole) && cfg.frame !in body
    ensures (whole + body)[..LastIndexOf(whole + body, cfg.frame) + 1] == whole
  {
    var s := whole + body;
    var k := LastIndexOf(s, cfg.frame);
    assert forall i :: |whole| <= i < |s| ==> s[i] == body[i - |whole|];
    assert whole != [] ==> s[|whole| - 1] == cfg.frame;
  }

  lemma AppendRecordWhole(cfg: Config, whole: Bytes, text: Bytes, g: Grant)
    requires cfg.Valid() && WholeRecords(cfg, whole)
    ensures AppendRecordUnder(cfg, Buffered(whole, false), text, g) ==
            var next := whole + RecordBytes(cfg, text);
            if |next| + 1 <= MAX_BUFFER && g == GRANTED then Buffered(next, false) else Buffered(whole, true)
  {
    var body, b := Strip(cfg, text), Buffered(whole, false);
    StripRemovesFrameDelimiter(cfg, text);
    if !Fits(|whole|, |text|) || !g.body {
      TruncateKeepsWholeRecords(cfg, whole, []);
      assert whole + [] == whole;
    } else {
      assert AppendText(cfg, b, body, true) == Buffered(whole + body, false);
      TruncateKeepsWholeRecords(cfg, whole, body);
      ConcatAssoc(whole, body, [cfg.frame]);
    }
  }

  lemma LongestFitSnoc(cfg: Config, init: seq<Bytes>, last: Bytes, k: nat)
    requires LongestFit(cfg, init, k)
    ensures var texts := init + [last];
            if k == |init| && |Framed(cfg, texts)| + 1 <= MAX_BUFFER then LongestFit(cfg, texts, k + 1)
            else LongestFit(cfg, texts, k)
  {
    hide RecordBytes;
    var texts := init + [last];
    assert forall j :: 0 <= j <= |init| ==> texts[..j] == init[..j];
    assert texts[..|texts|] == texts && init[..|init|] == init;
    FramedSnoc(cfg, init, last);
  }

  /** The builder keeps exactly the longest prefix of complete records that fits under the ceiling. */
  lemma {:induction false} BuiltIsLongestFit(cfg: Config, texts: seq<Bytes>) returns (k: nat)
    requires cfg.Valid()
    ensures LongestFit(cfg, texts, k)
    ensures Built(cfg, texts) == Buffered(Framed(cfg, texts[..k]), k < |texts|)
  {
    hide RecordBytes;
    k := 0;
    if texts != [] {
      var init, last := texts[..|texts| - 1], texts[|texts| - 1];
      assert texts == init + [last];
      k := BuiltIsLongestFit(cfg, init);
      LongestFitSnoc(cfg, init, last, k);
      if k == |init| {
        assert init[..k] == init && texts[..k] == init && texts[..k + 1] == texts;
        FramedSnoc(cfg, init, last);
        FramedWhole(cfg, init);
        AppendRecordWhole(cfg, Framed(cfg, init), last, GRANTED);
        if |Framed(cfg, texts)| + 1 <= MAX_BUFFER {
          k := |texts|;
        }
      } else {
        assert texts[..k] == init[..k];
      }
    }
  }

  /** The first `k` records fit with memory granted for each of them, and the next does not. */
  ghost predicate StoppedAt(cfg: Config, texts: seq<Bytes>, grants: seq<Grant>, k: nat)
    requires |grants| == |texts|
  {
    && k <= |texts|
    && |Framed(cfg, texts[..k])| + 1 <= MAX_BUFFER
    && (forall i :: 0 <= i < k ==> grants[i] == GRANTED)
    && (k < |texts| ==> !(grants[k] == GRANTED && |Framed(cfg, texts[..k + 1])| + 1 <= MAX_BUFFER))
  }

  lemma StoppedAtSnoc(cfg: Config, init: seq<Bytes>, last: Bytes, grants: seq<Grant>, g: Grant, k: nat)
    requires |grants| == |init| && StoppedAt(cfg, init, grants, k)
    ensures var texts := init + [last];
            if k == |init| && g == GRANTED && |Framed(cfg, texts)| + 1 <= MAX_BUFFER
            then StoppedAt(cfg, texts, grants + [g], k + 1)
            else StoppedAt(cfg, texts, grants + [g], k)
  {
    hide Framed;
    var texts := init + [last];
    assert texts[..k] == init[..k];
    if k == |init| {
      assert texts[..k + 1] == texts;
    } else {
      assert texts[..k + 1] == init[..k + 1];
    }
  }

  lemma AppendAfterPrefix(cfg: Config, init: seq<Bytes>, last: Bytes, g: Grant, k: nat)
    requires cfg.Valid() && k <= |init|
    ensures var texts := init + [last];
            AppendRecordUnder(cfg, Buffered(Framed(cfg, init[..k]), k < |init|), last, g) ==
            if k == |init| && g == GRANTED && |Framed(cfg, texts)| + 1 <= MAX_BUFFER
            then Buffered(Framed(cfg, texts), false)
            else Buffered(Framed(cfg, init[..k]), true)
  {
    hide RecordBytes, Framed, Strip;
    if k == |init| {
      assert init[..k] == init;
      FramedSnoc(cfg, init, last);
      FramedWhole(cfg, init);
      AppendRecordWhole(cfg, Framed(cfg, init), last, g);
    }
  }

  /** The next record moves the end of what is kept by one, or leaves it for good. */
  lemma KeepsPrefixSnoc(cfg: Config, init: seq<Bytes>, last: Bytes, grants: seq<Grant>, g: Grant, k: nat)
    returns (k': nat)
    requires cfg.Valid() && |grants| == |init| && StoppedAt(cfg, init, grants, k)
    ensures k' <= |init| + 1 && StoppedAt(cfg, init + [last], grants + [g], k')
    ensures AppendRecordUnder(cfg, Buffered(Framed(cfg, init[..k]), k < |init|), last, g) ==
            Buffered(Framed(cfg, (init + [last])[..k']), k' < |init| + 1)
  {
    hide Framed, AppendRecordUnder;
    var texts := init + [last];
    StoppedAtSnoc(cfg, init, last, grants, g, k);
    AppendAfterPrefix(cfg, init, last, g, k);
    assert texts[..k] == init[..k] && texts[..|texts|] == texts;
    k' := if k == |init| && g == GRANTED && |Framed(cfg, texts)| + 1 <= MAX_BUFFER then k + 1 else k;
  }

  /** Whatever the allocator does, complete records are kept up to the first that finds no room. */
  lemma {:induction false} BuiltUnderKeepsPrefix(cfg: Config, texts: seq<Bytes>, grants: seq<Grant>) returns (k: nat)
    requires cfg.Valid() && |grants| == |texts|
    ensures StoppedAt(cfg, texts, grants, k)
    ensures BuiltUnder(cfg, texts, grants) == Buffered(Framed(cfg, texts[..k]), k < |texts|)
  {
    if texts == [] {
      k := 0;
    } else {
      hide Framed, AppendRecordUnder, StoppedAt;
      var n := |texts| - 1;
      k := BuiltUnderKeepsPrefix(cfg, texts[..n], grants[..n]);
      assert texts == texts[..n] + [texts[n]] && grants == grants[..n] + [grants[n]];
      k := KeepsPrefixSnoc(cfg, texts[..n], texts[n], grants[..n], grants[n], k);
    }
  }

  /** The first record is kept, so that there is a trace to write. */
  predicate FirstKept(texts: seq<Bytes>, grants: seq<Grant>)
    requires |grants| == |texts|
  {
    texts != [] && |texts[0]| + 2 <= MAX_BUFFER && grants[0] == GRANTED
  }

  lemma NothingKeptIff(cfg: Config, texts: seq<Bytes>, grants: seq<Grant>)
    requires cfg.Valid() && |grants| == |texts|
    ensures BuiltUnder(cfg, texts, grants).bytes != [] <==> FirstKept(texts, grants)
  {
    hide Strip;
    var k := BuiltUnderKeepsPrefix(cfg, texts, grants);
    hide BuiltUnder;
    if k > 0 {
      assert texts[..k] == [texts[0]] + texts[1..k];
      FramedConcat(cfg, [texts[0]], texts[1..k]);
      assert Framed(cfg, [texts[0]]) == RecordBytes(cfg, texts[0]) + Framed(cfg, []);
    } else if texts != [] {
      assert texts[..1] == [texts[0]];
      assert Framed(cfg, [texts[0]]) == RecordBytes(cfg, texts[0]) + Framed(cfg, []);
    }
  }

  // ---------- cutting a trace into writes ----------

  function TruncMarker(cfg: Config): Bytes { "# truncated = 1" + [cfg.frame] }

  /** The record that closes chunk `k` of trace `id`, then the trace delimiter. */
  function Tail(cfg: Config, id: nat, k: nat, sentinel: char): Bytes {
    "# trace_id = " + Decimal(id) + "." + Decimal(k) + [sentinel, cfg.frame, cfg.trace]
  }

  /** The tail fits its 64-byte array (with its NUL), and the byte three from its end is the sentinel. */
  lemma TailFitsItsArray(cfg: Config, id: nat, k: nat, sentinel: char)
    requires id < TWO_64 && k < TWO_64
    ensures 3 <= |Tail(cfg, id, k, sentinel)| < 64
    ensures forall s :: Tail(cfg, id, k, sentinel)[|Tail(cfg, id, k, sentinel)| - 3 := s] == Tail(cfg, id, k, s)
  {
    Uint64Digits(id);
    Uint64Digits(k);
  }

  /** Bytes left for the body of chunk `k`. */
  function Room(cfg: Config, id: nat, k: nat): nat {
    var tail := |Tail(cfg, id, k, '~')|;
    if cfg.size > tail then cfg.size - tail else 0
  }

  /** Tails grow with the digits of `k`, so later chunks never have more room. */
  lemma RoomShrinks(cfg: Config, id: nat, j: nat, k: nat)
    requires j <= k
    ensures Room(cfg, id, k) <= Room(cfg, id, j)
  {
    DecimalMonotone(j, k);
  }

  /** `event_handler_fout_find_chunk_end`: length of the next chunk, 0 standing for NULL. */
  function ChunkEnd(cfg: Config, rest: Bytes, room: nat): (n: nat)
    ensures n <= |rest|
    ensures n <= room
    ensures 0 < n < |rest| ==> rest[n - 1] == cfg.frame
  {
    if |rest| <= room then |rest| else LastIndexOf(rest[..room], cfg.frame) + 1
  }

  /** The chunk bodies written for `rest`, the first of them being chunk `k`. */
  function Bodies(cfg: Config, id: nat, k: nat, rest: Bytes): seq<Bytes>
    decreases |rest|
  {
    var n := ChunkEnd(cfg, rest, Room(cfg, id, k));
    if n == 0 then [] else [rest[..n]] + Bodies(cfg, id, k + 1, rest[n..])
  }

  /** One turn of the chunk loop, after `before` chunks. */
  lemma BodiesStep(cfg: Config, id: nat, before: seq<Bytes>, rest: Bytes, n: nat)
    requires n == ChunkEnd(cfg, rest, Room(cfg, id, |before|)) > 0
    ensures before + Bodies(cfg, id, |before|, rest) ==
            (before + [rest[..n]]) + Bodies(cfg, id, |before| + 1, rest[n..])
    ensures LeftOver(cfg, id, |before|, rest) == LeftOver(cfg, id, |before| + 1, rest[n..])
  {
    ConcatAssoc(before, [rest[..n]], Bodies(cfg, id, |before| + 1, rest[n..]));
  }

  /** What the chunk writer leaves out of the buffer. */
  function LeftOver(cfg: Config, id: nat, k: nat, rest: Bytes): Bytes
    decreases |rest|
  {
    var n := ChunkEnd(cfg, rest, Room(cfg, id, k));
    if n == 0 then rest else LeftOver(cfg, id, k + 1, rest[n..])
  }

  /** All chunk bodies of a trace, the truncation marker being a chunk of its own. */
  function ChunkBodies(cfg: Config, id: nat, b: Buffered): seq<Bytes> {
    Bodies(cfg, id, 0, b.bytes) +
    if b.truncated || LeftOver(cfg, id, 0, b.bytes) != [] then [TruncMarker(cfg)] else []
  }

  /** Consecutively numbered chunks; once `closed`, `!` stands on the last and only there. */
  function Numbered(cfg: Config, id: nat, bodies: seq<Bytes>, closed: bool): (w: seq<Bytes>)
    ensures |w| == |bodies|
    ensures forall k :: 0 <= k < |w| ==>
              w[k] == bodies[k] + Tail(cfg, id, k, if closed && k == |bodies| - 1 then '!' else '~')
  {
    seq(|bodies|, k requires 0 <= k < |bodies| =>
      bodies[k] + Tail(cfg, id, k, if closed && k == |bodies| - 1 then '!' else '~'))
  }

  lemma NumberedSnoc(cfg: Config, id: nat, bodies: seq<Bytes>, body: Bytes, close: bool)
    ensures Numbered(cfg, id, bodies + [body], close) ==
            Numbered(cfg, id, bodies, false) + [body + Tail(cfg, id, |bodies|, if close then '!' else '~')]
  {
  }

  predicate IsChunked(cfg: Config, b: Buffered) {
    |b.bytes| + 1 + (if b.truncated then |TruncMarker(cfg)| else 0) > cfg.size
  }

  /** The writes of `event_handler_fout_write`. */
  function Writes(cfg: Config, id: nat, b: Buffered): seq<Bytes> {
    if IsChunked(cfg, b) then Numbered(cfg, id, ChunkBodies(cfg, id, b), true)
    else [b.bytes + (if b.truncated then TruncMarker(cfg) else []) + [cfg.trace]]
  }

  /** What STACK_END writes: nothing at all for an empty buffer. */
  function Written(cfg: Config, id: nat, b: Buffered): seq<Bytes> {
    if b.bytes == [] then [] else Writes(cfg, id, b)
  }

  /** Length of the first record of `rest`, delimiter included. */
  function FirstRecord(cfg: Config, rest: Bytes): nat
    requires WholeRecords(cfg, rest) && rest != []
  {
    IndexOf(rest, cfg.frame) + 1
  }

  lemma ChunkEndStuck(cfg: Config, rest: Bytes, room: nat)
    requires WholeRecords(cfg, rest) && rest != []
    ensures ChunkEnd(cfg, rest, room) == 0 <==> FirstRecord(cfg, rest) > room
  {
    var i := IndexOf(rest, cfg.frame);
    assert rest[|rest| - 1] == cfg.frame;
    if room < |rest| && i < room {
      assert rest[..room][i] == cfg.frame;
    }
  }

  /** The chunk bodies and what is left out of them make up the buffer. */
  lemma {:induction false} BodiesCoverPrefix(cfg: Config, id: nat, k: nat, rest: Bytes)
    ensures Flatten(Bodies(cfg, id, k, rest)) + LeftOver(cfg, id, k, rest) == rest
    decreases |rest|
  {
    hide ChunkEnd, Room, Flatten;
    var n := ChunkEnd(cfg, rest, Room(cfg, id, k));
    if n == 0 {
      FlattenNothing();
    } else {
      BodiesCoverPrefix(cfg, id, k + 1, rest[n..]);
      var later, left := Bodies(cfg, id, k + 1, rest[n..]), LeftOver(cfg, id, k + 1, rest[n..]);
      assert Bodies(cfg, id, k, rest) == [rest[..n]] + later && LeftOver(cfg, id, k, rest) == left;
      hide Bodies, LeftOver;
      FlattenCons(rest[..n], later);
      ConcatAssoc(rest[..n], Flatten(later), left);
      assert rest == rest[..n] + rest[n..];
    }
  }

  /** A chunk body is a non-empty run of whole records that fits beside its own tail. */
  predicate GoodBody(cfg: Config, id: nat, k: nat, body: Bytes) {
    body != [] && WholeRecords(cfg, body) && |body| + |Tail(cfg, id, k, '~')| <= cfg.size
  }

  lemma {:induction false} BodiesAreGood(cfg: Config, id: nat, k: nat, rest: Bytes)
    requires WholeRecords(cfg, rest)
    ensures forall i :: 0 <= i < |Bodies(cfg, id, k, rest)| ==> GoodBody(cfg, id, k + i, Bodies(cfg, id, k, rest)[i])
    decreases |rest|
  {
    var n := ChunkEnd(cfg, rest, Room(cfg, id, k));
    if n > 0 {
      var bodies, later := Bodies(cfg, id, k, rest), Bodies(cfg, id, k + 1, rest[n..]);
      BodiesAreGood(cfg, id, k + 1, rest[n..]);
      assert GoodBody(cfg, id, k, rest[..n]);
      forall i | 0 <= i < |bodies|
        ensures GoodBody(cfg, id, k + i, bodies[i])
      {
        if i > 0 {
          assert bodies[i] == later[i - 1] && k + i == (k + 1) + (i - 1);
        }
      }
    }
  }

  /** The only thing that stops the chunk writer early is a record too big for the chunk it would open. */
  lemma {:induction false} LeftOverDoesNotFit(cfg: Config, id: nat, k: nat, rest: Bytes)
    requires WholeRecords(cfg, rest)
    ensures WholeRecords(cfg, LeftOver(cfg, id, k, rest))
    ensures LeftOver(cfg, id, k, rest) != [] ==>
              FirstRecord(cfg, LeftOver(cfg, id, k, rest)) > Room(cfg, id, k + |Bodies(cfg, id, k, rest)|)
    decreases |rest|
  {
    var n := ChunkEnd(cfg, rest, Room(cfg, id, k));
    if n > 0 {
      LeftOverDoesNotFit(cfg, id, k + 1, rest[n..]);
    } else if rest != [] {
      ChunkEndStuck(cfg, rest, Room(cfg, id, k));
    }
  }

  /** Every write stays within `-b` except the chunk that only carries the truncation marker. */
  lemma WritesFitBufferSize(cfg: Config, id: nat, b: Buffered, k: nat)
    requires WholeRecords(cfg, b.bytes) && k < |Writes(cfg, id, b)|
    ensures |Writes(cfg, id, b)[k]| <= cfg.size
            || (IsChunked(cfg, b) && k == |Writes(cfg, id, b)| - 1
                && Writes(cfg, id, b)[k] == TruncMarker(cfg) + Tail(cfg, id, k, '!'))
  {
    if IsChunked(cfg, b) && k < |Bodies(cfg, id, 0, b.bytes)| {
      BodiesAreGood(cfg, id, 0, b.bytes);
      assert GoodBody(cfg, id, 0 + k, Bodies(cfg, id, 0, b.bytes)[k]);
    }
  }
}
