/**
 Top mode (`top.c`): a 512-byte buffer that puts the child's output back together line by line,
 and the per-function counters the lines feed.
 */
module Top {
  import opened Text

  const BUF_SIZE: nat := 512
  const FUNC_SIZE: nat := 256

  // ---------- complete lines of a stream ----------

  /** The lines that have been ended by a newline. */
  function CompleteLines(s: Bytes): seq<Bytes>
    decreases |s|
  {
    var i := IndexOf(s, '\n');
    if i == |s| then [] else [s[..i]] + CompleteLines(s[i + 1..])
  }

  /** What follows the last newline. */
  function Unfinished(s: Bytes): (r: Bytes)
    ensures '\n' !in r
    decreases |s|
  {
    var i := IndexOf(s, '\n');
    if i == |s| then assert s[..i] == s; s else Unfinished(s[i + 1..])
  }

  /** Splitting can be done piece by piece, carrying the unfinished line over. */
  lemma {:induction false} SplitConcat(a: Bytes, b: Bytes)
    ensures CompleteLines(a + b) == CompleteLines(a) + CompleteLines(Unfinished(a) + b)
    ensures Unfinished(a + b) == Unfinished(Unfinished(a) + b)
    decreases |a|
  {
    hide IndexOf;
    var i := IndexOf(a, '\n');
    IndexOfWhole(a, '\n');
    if i < |a| {
      IndexOfConcat(a, b, '\n');
      assert (a + b)[..i] == a[..i] && (a + b)[i + 1..] == a[i + 1..] + b;
      SplitConcat(a[i + 1..], b);
      ConcatAssoc([a[..i]], CompleteLines(a[i + 1..]), CompleteLines(Unfinished(a[i + 1..]) + b));
    }
  }

  function WithNewlines(lines: seq<Bytes>): Bytes {
    if lines == [] then [] else lines[0] + "\n" + WithNewlines(lines[1..])
  }

  /** The complete lines, each with its newline, and the unfinished rest are the stream again. */
  lemma {:induction false} SplitIsExact(s: Bytes)
    ensures WithNewlines(CompleteLines(s)) + Unfinished(s) == s
    ensures forall k :: 0 <= k < |CompleteLines(s)| ==> '\n' !in CompleteLines(s)[k]
    decreases |s|
  {
    hide IndexOf, WithNewlines;
    var i := IndexOf(s, '\n');
    if i < |s| {
      var line, rest := s[..i], s[i + 1..];
      assert CompleteLines(s) == [line] + CompleteLines(rest) && Unfinished(s) == Unfinished(rest);
      hide CompleteLines, Unfinished;
      SplitIsExact(rest);
      WithNewlinesCons(line, CompleteLines(rest));
      ConcatAssoc(line + "\n", WithNewlines(CompleteLines(rest)), Unfinished(rest));
      assert s == (line + "\n") + rest;
    } else {
      NothingWithNewlines();
    }
  }

  lemma WithNewlinesCons(line: Bytes, lines: seq<Bytes>)
    ensures WithNewlines([line] + lines) == line + "\n" + WithNewlines(lines)
  {
    assert ([line] + lines)[1..] == lines;
  }

  lemma NothingWithNewlines()
    ensures WithNewlines([]) == []
  {
  }

  lemma NoNewlineNoLines(s: Bytes)
    requires '\n' !in s
    ensures CompleteLines(s) == [] && Unfinished(s) == s
  {
    IndexOfWhole(s, '\n');
  }

  lemma {:induction false} LinesAreShort(s: Bytes, k: nat)
    requires k < |CompleteLines(s)|
    ensures |CompleteLines(s)[k]| < |s|
    decreases |s|
  {
    hide IndexOf;
    if k > 0 {
      LinesAreShort(s[IndexOf(s, '\n') + 1..], k - 1);
    }
  }

  // ---------- the reader ----------

  /** What is buffered before the next read: a full buffer without a newline is thrown away. */
  function Carried(pending: Bytes): Bytes { if |pending| < BUF_SIZE then pending else [] }

  /** The reader's buffer and the lines it has handed on, after a sequence of reads. */
  datatype Reader = Reader(pending: Bytes, handled: seq<Bytes>)

  function Fed(r: Reader, data: Bytes): Reader {
    var s := Carried(r.pending) + data;
    Reader(Unfinished(s), r.handled + CompleteLines(s))
  }

  class ChildOutput {
    var buf: array<char>
    var bufLen: nat
    var handled: seq<Bytes>  // arguments of the calls of handle_line
    var done: bool

    ghost predicate Valid()
      reads this, buf
    {
      buf.Length == BUF_SIZE && bufLen <= BUF_SIZE
    }

    ghost function State(): Reader
      requires Valid()
      reads this, buf
    {
      Reader(buf[..bufLen], handled)
    }

    constructor ()
      ensures Valid() && fresh(buf) && State() == Reader([], []) && !done
    {
      buf := new char[BUF_SIZE];
      bufLen, handled, done := 0, [], false;
    }

    /** `read_child_out`; `data` is what this `read` returns, nothing meaning end of file. */
    method Read(data: Bytes)
      requires Valid() && |Carried(State().pending)| + |data| <= BUF_SIZE
      modifies this, buf
      ensures Valid() && buf == old(buf)
      ensures data != [] ==> State() == Fed(old(State()), data) && done == old(done)
      ensures data == [] ==> done && handled == old(handled)
    {
      hide IndexOf, Unfinished, CompleteLines;
      if BUF_SIZE - bufLen < 1 {
        bufLen := 0;
      }
      if data == [] {
        done := true;
        return;
      }
      ghost var s := Carried(old(State()).pending) + data;
      assert buf[..bufLen] == Carried(old(State()).pending);
      forall i | 0 <= i < |data| {
        buf[bufLen + i] := data[i];
      }
      bufLen := bufLen + |data|;
      assert buf[..bufLen] == s;
      Drain(s);
    }

    /** Hands on and removes the lines at the front of the buffer. */
    method Drain(ghost s: Bytes)
      requires Valid() && buf[..bufLen] == s
      modifies this`bufLen, this`handled, buf
      ensures Valid()
      ensures buf[..bufLen] == Unfinished(s) && handled == old(handled) + CompleteLines(s)
    {
      hide IndexOf;
      var nl := IndexOf(buf[..bufLen], '\n');
      ghost var rest := s;
      while nl < bufLen
        invariant Valid() && buf[..bufLen] == rest && nl == IndexOf(rest, '\n')
        invariant Unfinished(s) == Unfinished(rest)
        invariant old(handled) + CompleteLines(s) == handled + CompleteLines(rest)
        decreases bufLen
      {
        var line := buf[..nl];
        assert line == rest[..nl];
        handled := handled + [line];
        ConcatAssoc(handled[..|handled| - 1], [line], CompleteLines(rest[nl + 1..]));
        ShiftDown(nl + 1);
        rest := rest[nl + 1..];
        nl := IndexOf(buf[..bufLen], '\n');
      }
      assert handled + [] == handled;
    }

    /** `memmove` to the front. */
    method ShiftDown(n: nat)
      requires Valid() && n <= bufLen
      modifies this`bufLen, buf
      ensures Valid() && buf[..bufLen] == old(buf[..bufLen])[n..]
    {
      forall i | 0 <= i < bufLen - n {
        buf[i] := buf[i + n];
      }
      bufLen := bufLen - n;
    }
  }

  // ---------- independence of read boundaries ----------

  /** A way the kernel may cut the stream into reads that fit the buffer. */
  predicate ValidReads(r: Reader, pieces: seq<Bytes>)
    decreases |pieces|
  {
    pieces == [] ||
    (pieces[0] != [] && |Carried(r.pending)| + |pieces[0]| <= BUF_SIZE && ValidReads(Fed(r, pieces[0]), pieces[1..]))
  }

  function FedAll(r: Reader, pieces: seq<Bytes>): Reader
    decreases |pieces|
  {
    if pieces == [] then r else FedAll(Fed(r, pieces[0]), pieces[1..])
  }

  /** With its newline the line fits the buffer. */
  predicate Short(line: Bytes) { |line| + 1 <= BUF_SIZE }

  predicate AllShort(s: Bytes) {
    forall k :: 0 <= k < |CompleteLines(s)| ==> Short(CompleteLines(s)[k])
  }

  /** In step with the stream read so far, or inside a line that is already too long. */
  predicate InStep(r: Reader, s: Bytes) {
    && '\n' !in r.pending
    && r.handled == CompleteLines(s)
    && (r.pending == Unfinished(s) || |Unfinished(s)| >= BUF_SIZE)
  }

  lemma AllShortPrefix(a: Bytes, b: Bytes)
    requires AllShort(a + b)
    ensures AllShort(a)
  {
    hide CompleteLines, Unfinished, Short;
    SplitConcat(a, b);
    assert forall k :: 0 <= k < |CompleteLines(a)| ==> CompleteLines(a + b)[k] == CompleteLines(a)[k];
  }

  /** A line that is already too long could only be completed as a long line. */
  lemma LongLineEndsLong(s: Bytes, data: Bytes)
    requires |Unfinished(s)| >= BUF_SIZE && '\n' in data
    ensures !AllShort(s + data)
  {
    hide IndexOf;
    var u := Unfinished(s);
    SplitConcat(s, data);
    IndexOfWhole(data, '\n');
    IndexOfWhole(u + data, '\n');
    var i, lines := IndexOf(u + data, '\n'), CompleteLines(u + data);
    assert (u + data)[|u| + IndexOf(data, '\n')] == '\n';
    assert i >= |u|;
    assert CompleteLines(s + data)[|CompleteLines(s)|] == lines[0] == (u + data)[..i];
  }

  lemma FedInStep(r: Reader, s: Bytes, data: Bytes)
    requires InStep(r, s) && AllShort(s + data)
    ensures InStep(Fed(r, data), s + data)
  {
    hide CompleteLines, Unfinished, AllShort;
    SplitConcat(s, data);
    if |Unfinished(s)| >= BUF_SIZE {
      if '\n' in data { LongLineEndsLong(s, data); }
      NoNewlineNoLines(Unfinished(s) + data);
      NoNewlineNoLines(Carried(r.pending) + data);
      assert r.handled + [] == r.handled;
    }
  }

  lemma {:induction false} FedAllInStep(r: Reader, s: Bytes, pieces: seq<Bytes>)
    requires InStep(r, s) && AllShort(s + Flatten(pieces))
    ensures InStep(FedAll(r, pieces), s + Flatten(pieces))
    decreases |pieces|
  {
    hide InStep, AllShort, Fed;
    if pieces == [] {
      assert s + [] == s;
    } else {
      ConcatAssoc(s, pieces[0], Flatten(pieces[1..]));
      AllShortPrefix(s + pieces[0], Flatten(pieces[1..]));
      FedInStep(r, s, pieces[0]);
      FedAllInStep(Fed(r, pieces[0]), s + pieces[0], pieces[1..]);
    }
  }

  lemma {:induction false} HandledAreShort(r: Reader, pieces: seq<Bytes>)
    requires ValidReads(r, pieces) && forall k :: 0 <= k < |r.handled| ==> Short(r.handled[k])
    ensures forall k :: 0 <= k < |FedAll(r, pieces).handled| ==> Short(FedAll(r, pieces).handled[k])
    decreases |pieces|
  {
    hide CompleteLines, Unfinished;
    if pieces != [] {
      var s := Carried(r.pending) + pieces[0];
      forall k | 0 <= k < |CompleteLines(s)|
        ensures Short(CompleteLines(s)[k])
      {
        LinesAreShort(s, k);
      }
      HandledAreShort(Fed(r, pieces[0]), pieces[1..]);
    }
  }

  /** However the stream is cut into reads, the lines handed on are its complete lines in order,
      if and only if every complete line, newline included, fits the buffer. */
  lemma LinesIndependentOfReads(pieces: seq<Bytes>)
    requires ValidReads(Reader([], []), pieces)
    ensures FedAll(Reader([], []), pieces).handled == CompleteLines(Flatten(pieces)) <==> AllShort(Flatten(pieces))
  {
    hide CompleteLines, Unfinished, FedAll, Flatten, ValidReads;
    var r, s := Reader([], []), Flatten(pieces);
    HandledAreShort(r, pieces);
    if AllShort(s) {
      assert [] + s == s;
      NoNewlineNoLines([]);
      FedAllInStep(r, [], pieces);
    }
  }

  // ---------- counters ----------

  /** What a line contributes: a sample of `name`, at the leaf or above it. */
  datatype Sample = Sample(leaf: bool, name: Bytes)

  function SpaceSpan(s: Bytes): (n: nat)
    ensures n <= |s|
  {
    if s == [] || !IsSpace(s[0]) then 0 else 1 + SpaceSpan(s[1..])
  }

  predicate AllZeros(s: Bytes) { forall i :: 0 <= i < |s| ==> s[i] == '0' }

  /** The tests of `handle_line`; `strtoull` skips white space and a sign before the digits. */
  function ParseLine(line: Bytes): (r: Option<Sample>)
    ensures r.Some? ==> 0 < |r.value.name| < FUNC_SIZE
  {
    if |line| < 3 || line[0] == '#' then None
    else
      var i := SpaceSpan(line);
      var j := if i < |line| && (line[i] == '+' || line[i] == '-') then i + 1 else i;
      var end := j + DigitSpan(line[j..]);
      var zero := AllZeros(line[j..end]);
      if end == j || (zero && line[0] != '0') || end == |line| || line[end] != ' ' then None
      else
        var name := line[end + 1..];
        if |name| < 1 || |name| >= FUNC_SIZE then None else Some(Sample(zero, name))
  }

  lemma {:induction false} DecimalZeros(n: nat)
    ensures AllZeros(Decimal(n)) <==> n == 0
  {
    if n >= 10 {
      DecimalZeros(n / 10);
      var r, q := Decimal(n), Decimal(n / 10);
      var i :| 0 <= i < |q| && q[i] != '0';
      assert r[i] == q[i];
    } else {
      assert Decimal(n)[0] == DigitChar(n);
      assert DigitValue('0') == 0;
    }
  }

  /** A frame record as the output handler prints it is one sample of what follows the depth, at the
      leaf exactly if the depth is zero. */
  lemma FrameLineSampled(depth: nat, name: Bytes)
    requires 0 < |name| < FUNC_SIZE
    ensures ParseLine(Decimal(depth) + (" " + name)) == Some(Sample(depth == 0, name))
  {
    hide Decimal, DigitSpan, SpaceSpan, AllZeros;
    var digits := Decimal(depth);
    var line := digits + (" " + name);
    assert line[0] == digits[0];
    NoLeadingSpace(line);
    DigitSpanOf(digits, " " + name);
    assert line[0..] == line && line[..|digits|] == digits && line[|digits| + 1..] == name;
    DecimalZeros(depth);
    if depth == 0 { DecimalZeroDigit(); }
  }

  lemma DecimalZeroDigit()
    ensures Decimal(0) == "0"
  {
  }

  lemma NoLeadingSpace(s: Bytes)
    requires s != [] && IsDigit(s[0])
    ensures SpaceSpan(s) == 0
  {
  }

  datatype Entry = Entry(func: Bytes, excl: nat, incl: nat, totalExcl: nat, totalIncl: nat)

  /** How often `name` (as stored, up to a NUL) was sampled, at the leaf only or anywhere. */
  function Sampled(lines: seq<Bytes>, name: Bytes, leafOnly: bool): nat {
    if lines == [] then 0
    else
      var p := ParseLine(lines[|lines| - 1]);
      Sampled(lines[..|lines| - 1], name, leafOnly) +
      if p.Some? && CString(p.value.name) == name && (p.value.leaf || !leafOnly) then 1 else 0
  }

  /** How many lines were leaf frames, that is, how many stacks. */
  function Leaves(lines: seq<Bytes>): nat {
    if lines == [] then 0
    else
      var p := ParseLine(lines[|lines| - 1]);
      Leaves(lines[..|lines| - 1]) + if p.Some? && p.value.leaf then 1 else 0
  }

  datatype Field = Excl | Incl | TotalExcl | TotalIncl

  function Get(e: Entry, field: Field): nat {
    match field
    case Excl => e.excl
    case Incl => e.incl
    case TotalExcl => e.totalExcl
    case TotalIncl => e.totalIncl
  }

  /** The part of one entry that counts for `name`; `None` stands for all names. */
  function Part(e: Entry, field: Field, name: Option<Bytes>): nat {
    if name == None || name == Some(e.func) then Get(e, field) else 0
  }

  function SumOf(entries: seq<Entry>, field: Field, name: Option<Bytes>): nat {
    if entries == [] then 0
    else SumOf(entries[..|entries| - 1], field, name) + Part(entries[|entries| - 1], field, name)
  }

  lemma {:induction false} SumUpdate(entries: seq<Entry>, i: nat, e: Entry, field: Field, name: Option<Bytes>)
    requires i < |entries|
    ensures SumOf(entries[i := e], field, name) ==
            SumOf(entries, field, name) - Part(entries[i], field, name) + Part(e, field, name)
  {
    hide Part;
    var n := |entries| - 1;
    if i == n {
      assert entries[i := e][..n] == entries[..n];
    } else {
      assert entries[i := e][..n] == entries[..n][i := e];
      SumUpdate(entries[..n], i, e, field, name);
    }
  }

  lemma SumSnoc(entries: seq<Entry>, e: Entry, field: Field, name: Option<Bytes>)
    ensures SumOf(entries + [e], field, name) == SumOf(entries, field, name) + Part(e, field, name)
  {
    hide Part;
    assert (entries + [e])[..|entries|] == entries;
  }

  /** The entries' running counters say what counting the lines says, by name and in all. */
  ghost predicate Tallies(entries: seq<Entry>, lines: seq<Bytes>, excl: Field, incl: Field) {
    && (forall name :: SumOf(entries, excl, Some(name)) == Sampled(lines, name, true))
    && (forall name :: SumOf(entries, incl, Some(name)) == Sampled(lines, name, false))
    && SumOf(entries, excl, None) == Leaves(lines)
  }

  /** One more sample on entry `i`. */
  function Bump(entries: seq<Entry>, i: nat, leaf: bool): seq<Entry>
    requires i < |entries|
  {
    var e := entries[i];
    entries[i := e.(excl := e.excl + (if leaf then 1 else 0), incl := e.incl + 1)]
  }

  function Totalled(e: Entry): Entry {
    e.(totalExcl := e.totalExcl + e.excl, totalIncl := e.totalIncl + e.incl)
  }

  /** What `display` leaves of an entry: the window's counts moved to the totals. */
  function Moved(e: Entry): Entry {
    Totalled(e).(excl := 0, incl := 0)
  }

  class Counters {
    var entries: seq<Entry>
    var samples: nat
    var totalSamples: nat
    ghost var window: seq<Bytes>   // lines since the last display
    ghost var before: seq<Bytes>   // lines up to it

    ghost predicate Valid()
      reads this
    {
      && Tallies(entries, window, Excl, Incl)
      && Tallies(entries, before, TotalExcl, TotalIncl)
      && samples == Leaves(window) && totalSamples == Leaves(before)
      && forall i :: 0 <= i < |entries| ==> '\0' !in entries[i].func
    }

    constructor ()
      ensures Valid() && window == [] && before == []
    {
      entries, samples, totalSamples, window, before := [], 0, 0, [], [];
    }

    /** Finds the entry with exactly this name, or adds one named as far as a NUL. */
    method FindOrAdd(name: Bytes) returns (i: nat)
      requires Valid()
      modifies this`entries
      ensures Valid() && i < |entries| && entries[i].func == CString(name)
    {
      hide IndexOf, Sampled, Leaves;
      i := 0;
      while i < |entries|
        invariant i <= |entries|
      {
        if entries[i].func == name {
          CStringNul(name);
          return;
        }
        i := i + 1;
      }
      CStringNul(name);
      ghost var was := entries;
      entries := entries + [Entry(CString(name), 0, 0, 0, 0)];
      forall field, n
        ensures SumOf(entries, field, n) == SumOf(was, field, n)
      {
        SumSnoc(was, Entry(CString(name), 0, 0, 0, 0), field, n);
      }
    }

    method HandleLine(line: Bytes)
      requires Valid()
      modifies this
      ensures Valid() && window == old(window) + [line] && before == old(before)
    {
      hide ParseLine, IndexOf, Tallies, Leaves;
      var p := ParseLine(line);
      LeavesSnoc(window, line);
      if p == None {
        NothingSampled(entries, window, line);
        window := window + [line];
        return;
      }
      var i := FindOrAdd(p.value.name);
      BumpTallies(entries, i, window, before, line);
      if p.value.leaf {
        samples := samples + 1;
      }
      entries := Bump(entries, i, p.value.leaf);
      window := window + [line];
    }

    /** The accounting of `display`: the window joins the totals and starts afresh. */
    method Display()
      requires Valid()
      modifies this
      ensures Valid() && before == old(before) + old(window) && window == []
      ensures |entries| == |old(entries)|
      ensures forall i :: 0 <= i < |entries| ==> entries[i] == Moved(old(entries[i]))
    {
      ghost var was := entries;
      for i := 0 to |entries|
        invariant |entries| == |was| && window == old(window) && before == old(before)
        invariant samples == old(samples) && totalSamples == old(totalSamples)
        invariant forall k :: 0 <= k < i ==> entries[k] == Totalled(was[k])
        invariant forall k :: i <= k < |was| ==> entries[k] == was[k]
      {
        var e := entries[i];
        entries := entries[i := e.(totalExcl := e.totalExcl + e.excl, totalIncl := e.totalIncl + e.incl)];
      }
      totalSamples := totalSamples + samples;
      for i := 0 to |entries|
        invariant |entries| == |was| && window == old(window) && before == old(before)
        invariant totalSamples == old(totalSamples) + old(samples)
        invariant forall k :: 0 <= k < i ==> entries[k] == Moved(was[k])
        invariant forall k :: i <= k < |was| ==> entries[k] == Totalled(was[k])
      {
        entries := entries[i := entries[i].(excl := 0, incl := 0)];
      }
      samples := 0;
      MoveTallies(was, entries, before, window);
      before, window := before + window, [];
    }
  }

  lemma LeavesSnoc(lines: seq<Bytes>, line: Bytes)
    ensures Leaves(lines + [line]) ==
            Leaves(lines) + if ParseLine(line).Some? && ParseLine(line).value.leaf then 1 else 0
  {
    hide ParseLine;
    assert (lines + [line])[..|lines|] == lines;
  }

  lemma NothingSampled(entries: seq<Entry>, lines: seq<Bytes>, line: Bytes)
    requires Tallies(entries, lines, Excl, Incl) && ParseLine(line) == None
    ensures Tallies(entries, lines + [line], Excl, Incl)
  {
    hide ParseLine, SumOf;
    assert (lines + [line])[..|lines|] == lines;
  }

  /** A sample raises the counters of its own name by one and no others. */
  lemma BumpTallies(entries: seq<Entry>, i: nat, lines: seq<Bytes>, before: seq<Bytes>, line: Bytes)
    requires i < |entries| && ParseLine(line).Some? && entries[i].func == CString(ParseLine(line).value.name)
    requires Tallies(entries, lines, Excl, Incl) && Tallies(entries, before, TotalExcl, TotalIncl)
    ensures var now := Bump(entries, i, ParseLine(line).value.leaf);
            Tallies(now, lines + [line], Excl, Incl) && Tallies(now, before, TotalExcl, TotalIncl)
  {
    hide ParseLine, CString, SumOf;
    var now, more := Bump(entries, i, ParseLine(line).value.leaf), lines + [line];
    assert more[..|lines|] == lines;
    forall field, n
      ensures SumOf(now, field, n) == SumOf(entries, field, n) - Part(entries[i], field, n) + Part(now[i], field, n)
    {
      SumUpdate(entries, i, now[i], field, n);
    }
  }

  lemma {:induction false} MovedSums(was: seq<Entry>, now: seq<Entry>, name: Option<Bytes>)
    requires |now| == |was| && forall i :: 0 <= i < |was| ==> now[i] == Moved(was[i])
    ensures SumOf(now, TotalExcl, name) == SumOf(was, TotalExcl, name) + SumOf(was, Excl, name)
    ensures SumOf(now, TotalIncl, name) == SumOf(was, TotalIncl, name) + SumOf(was, Incl, name)
    ensures SumOf(now, Excl, name) == 0 == SumOf(now, Incl, name)
  {
    if was != [] {
      MovedSums(was[..|was| - 1], now[..|now| - 1], name);
    }
  }

  lemma {:induction false} SampledConcat(a: seq<Bytes>, b: seq<Bytes>, name: Bytes, leafOnly: bool)
    ensures Sampled(a + b, name, leafOnly) == Sampled(a, name, leafOnly) + Sampled(b, name, leafOnly)
  {
    hide ParseLine, CString;
    if b == [] {
      assert a + b == a;
    } else {
      assert (a + b)[..|a + b| - 1] == a + b[..|b| - 1];
      SampledConcat(a, b[..|b| - 1], name, leafOnly);
    }
  }

  lemma {:induction false} LeavesConcat(a: seq<Bytes>, b: seq<Bytes>)
    ensures Leaves(a + b) == Leaves(a) + Leaves(b)
  {
    hide ParseLine;
    if b == [] {
      assert a + b == a;
    } else {
      assert (a + b)[..|a + b| - 1] == a + b[..|b| - 1];
      LeavesConcat(a, b[..|b| - 1]);
    }
  }

  lemma MoveTallies(was: seq<Entry>, now: seq<Entry>, before: seq<Bytes>, window: seq<Bytes>)
    requires |now| == |was| && forall i :: 0 <= i < |was| ==> now[i] == Moved(was[i])
    requires Tallies(was, window, Excl, Incl) && Tallies(was, before, TotalExcl, TotalIncl)
    ensures Tallies(now, [], Excl, Incl) && Tallies(now, before + window, TotalExcl, TotalIncl)
    ensures Leaves(before + window) == Leaves(before) + Leaves(window)
  {
    hide ParseLine, SumOf, CString;
    forall name
      ensures SumOf(now, TotalExcl, Some(name)) == Sampled(before + window, name, true)
      ensures SumOf(now, TotalIncl, Some(name)) == Sampled(before + window, name, false)
      ensures SumOf(now, Excl, Some(name)) == 0 == SumOf(now, Incl, Some(name))
    {
      MovedSums(was, now, Some(name));
      SampledConcat(before, window, name, true);
      SampledConcat(before, window, name, false);
    }
    MovedSums(was, now, None);
    LeavesConcat(before, window);
  }

  /** What happens to the counters in the course of a session. */
  datatype Event = Line(line: Bytes) | Shown

  /** The lines since the last display, and those up to it. */
  function WindowOf(events: seq<Event>): seq<Bytes> {
    if events == [] then []
    else match events[|events| - 1]
      case Line(line) => WindowOf(events[..|events| - 1]) + [line]
      case Shown => []
  }

  function BeforeOf(events: seq<Event>): seq<Bytes> {
    if events == [] then []
    else
      var init := events[..|events| - 1];
      match events[|events| - 1]
      case Line(_) => BeforeOf(init)
      case Shown => BeforeOf(init) + WindowOf(init)
  }

  /** After any sequence of lines and displays, the exclusive counts of the entries add up to the number
      of stacks since the last display, and their totals to the number of stacks before it. */
  method Session(events: seq<Event>) returns (entries: seq<Entry>, samples: nat, totalSamples: nat)
    ensures SumOf(entries, Excl, None) == samples == Leaves(WindowOf(events))
    ensures SumOf(entries, TotalExcl, None) == totalSamples == Leaves(BeforeOf(events))
    ensures Tallies(entries, WindowOf(events), Excl, Incl)
    ensures Tallies(entries, BeforeOf(events), TotalExcl, TotalIncl)
  {
    hide Leaves, Tallies, SumOf;
    var c := new Counters();
    for i := 0 to |events|
      invariant fresh(c) && c.Valid()
      invariant c.window == WindowOf(events[..i]) && c.before == BeforeOf(events[..i])
    {
      assert events[..i + 1][..i] == events[..i];
      match events[i]
      case Line(line) => c.HandleLine(line);
      case Shown => c.Display();
    }
    assert events[..|events|] == events;
    CountsAddUp(c);
    entries, samples, totalSamples := c.entries, c.samples, c.totalSamples;
  }

  /** At every point the entries' exclusive counts add up to the samples of the window, and their
      totals to the samples of all earlier windows. */
  lemma CountsAddUp(c: Counters)
    requires c.Valid()
    ensures SumOf(c.entries, Excl, None) == c.samples
    ensures SumOf(c.entries, TotalExcl, None) == c.totalSamples
  {
  }
}
