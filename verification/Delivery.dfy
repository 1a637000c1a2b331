/**
 What one write does to the decoder: a whole trace is counted at once, a chunk is parked, and a
 closing chunk counts its trace if and only if every chunk of it arrived.
 */
module Delivery {
  import opened Text
  import opened TraceFormat
  import opened Collapse
  import opened Records

  function NamesOf(clean: Bytes -> Bytes, bytes: Bytes): Frames { Names(clean, Lines(bytes)) }

  // ---------- lines of a write ----------

  lemma PlainLinesSplit(a: Bytes, b: Bytes)
    requires Terminated(a) && PlainLines(a + b)
    ensures PlainLines(a) && PlainLines(b)
  {
    hide PlainLine, Lines;
    LinesConcat(a, b);
    var l := Lines(a + b);
    assert forall i :: 0 <= i < |Lines(a)| ==> l[i] == Lines(a)[i];
    assert forall i :: 0 <= i < |Lines(b)| ==> l[|Lines(a)| + i] == Lines(b)[i];
  }

  lemma NamesOfConcat(clean: Bytes -> Bytes, a: Bytes, b: Bytes)
    requires Terminated(a)
    ensures NamesOf(clean, a + b) == NamesOf(clean, a) + NamesOf(clean, b)
  {
    hide Names, Lines;
    LinesConcat(a, b);
    NamesConcat(clean, Lines(a), Lines(b));
  }

  /** The trace id record, without its two delimiters. */
  function TailLine(id: nat, k: nat, mark: char): Bytes {
    PREFIX + (Decimal(id) + ("." + (Decimal(k) + [mark])))
  }

  lemma TailLines(cfg: Config, id: nat, k: nat, mark: char)
    requires NewlineMode(cfg) && mark != '\n'
    ensures Lines(Tail(cfg, id, k, mark)) == [TailLine(id, k, mark), []]
  {
    hide Lines, Decimal;
    var line := TailLine(id, k, mark);
    assert Tail(cfg, id, k, mark) == (line + "\n") + "\n";
    LinesConcat(line + "\n", "\n");
    OneLine(line);
    OneLine([]);
    assert [] + "\n" == "\n";
  }

  /** The decoder reads back the id, the index and the mark that were printed. */
  lemma TraceIdRoundTrip(id: nat, k: nat, mark: char)
    requires mark == '~' || mark == '!'
    ensures MatchTraceId(TailLine(id, k, mark)) == Some(TraceId(id, k, mark))
  {
    hide Decimal, MatchNumbers;
    var numbers := Decimal(id) + ("." + (Decimal(k) + [mark]));
    assert TailLine(id, k, mark)[|PREFIX|..] == numbers;
    NumbersMatched(Decimal(id), Decimal(k), mark);
    DecimalValue(id);
    DecimalValue(k);
  }

  lemma NumbersMatched(c: Bytes, d: Bytes, mark: char)
    requires c != [] && d != [] && !IsDigit(mark)
    requires forall i :: 0 <= i < |c| ==> IsDigit(c[i])
    requires forall i :: 0 <= i < |d| ==> IsDigit(d[i])
    ensures MatchNumbers(c + ("." + (d + [mark]))) == Some(TraceId(ValueOf(c), ValueOf(d), mark))
  {
    hide ValueOf, DigitSpan, MatchNumbers;
    var b := d + [mark];
    var a := c + ("." + b);
    assert a == c + (['.'] + b);
    AfterDigits(c, '.', b);
    assert b == d + ([mark] + []);
    AfterDigits(d, mark, []);
    MatchedParts(a, b);
  }

  lemma MatchedParts(a: Bytes, b: Bytes)
    requires 0 < DigitSpan(a) < |a| && a[DigitSpan(a)] == '.' && b == a[DigitSpan(a) + 1..]
    requires 0 < DigitSpan(b) < |b|
    ensures MatchNumbers(a) ==
            Some(TraceId(ValueOf(a[..DigitSpan(a)]), ValueOf(b[..DigitSpan(b)]), b[DigitSpan(b)]))
  {
    hide ValueOf, DigitSpan;
  }

  /** Where a run of digits ends, and what is on either side. */
  lemma AfterDigits(digits: Bytes, c: char, rest: Bytes)
    requires !IsDigit(c) && forall i :: 0 <= i < |digits| ==> IsDigit(digits[i])
    ensures var s, n := digits + ([c] + rest), |digits|;
            DigitSpan(s) == n < |s| && s[..n] == digits && s[n] == c && s[n + 1..] == rest
  {
    hide DigitSpan;
    DigitSpanOf(digits, [c] + rest);
  }

  lemma TailLooksLikeRecord(id: nat, k: nat, mark: char)
    ensures LooksLikeRecord(TailLine(id, k, mark))
  {
    hide Decimal, DigitSpan;
    var line := TailLine(id, k, mark);
    assert line[0] == '#' && line[1] == ' ' && line[2] == 't';
  }

  // ---------- effect of a write ----------

  /** A chunk parks the names in its body under its id and index. */
  lemma ChunkEffect(clean: Bytes -> Bytes, cfg: Config, st: State, body: Bytes, t: TraceId)
    requires NewlineMode(cfg) && st.stack == [] && Terminated(body) && PlainLines(body)
    requires t.mark == '~' || t.mark == '!'
    ensures Fold(clean, st, Lines(body + Tail(cfg, t.id, t.k, t.mark))) ==
            SaveChunk(st.(stack := NamesOf(clean, body)), t)
  {
    hide Lines, Names, PlainLine, Tail, TailLine;
    var line := TailLine(t.id, t.k, t.mark);
    LinesConcat(body, Tail(cfg, t.id, t.k, t.mark));
    TailLines(cfg, t.id, t.k, t.mark);
    FoldConcat(clean, st, Lines(body), [line, []]);
    FoldPlain(clean, st, Lines(body));
    var st1 := st.(stack := NamesOf(clean, body));
    assert [] + NamesOf(clean, body) == NamesOf(clean, body);
    assert Fold(clean, st, Lines(body)) == st1;
    TraceIdRoundTrip(t.id, t.k, t.mark);
    TailLooksLikeRecord(t.id, t.k, t.mark);
    FoldTwo(clean, st1, line, t);
  }

  lemma FoldTwo(clean: Bytes -> Bytes, st: State, line: Bytes, t: TraceId)
    requires LooksLikeRecord(line) && MatchTraceId(line) == Some(t)
    ensures Fold(clean, st, [line, []]) == SaveChunk(st, t)
  {
    hide MatchTraceId, Sorted, Gather, AllThere;
    assert line != [];
    var next := Step(clean, st, line);
    assert next == SaveChunk(st, t);
    assert [line, []][1..] == [[]];
    assert Step(clean, next, []) == next;
    assert Fold(clean, next, [[]]) == Fold(clean, Step(clean, next, []), [[]][1..]);
  }

  /** A trace written whole is counted at once, and only its frames matter. */
  lemma WholeEffect(clean: Bytes -> Bytes, cfg: Config, st: State, bytes: Bytes)
    requires NewlineMode(cfg) && st.stack == [] && Terminated(bytes) && PlainLines(bytes)
    ensures Fold(clean, st, Lines(bytes + "\n")) ==
            State([], st.chunks, Report(st.stacks, NamesOf(clean, bytes)))
  {
    hide Names, PlainLine;
    LinesConcat(bytes, "\n");
    OneLine([]);
    assert [] + "\n" == "\n";
    FoldConcat(clean, st, Lines(bytes), [[]]);
    FoldPlain(clean, st, Lines(bytes));
    assert [] + NamesOf(clean, bytes) == NamesOf(clean, bytes);
    var st1 := st.(stack := NamesOf(clean, bytes));
    assert Fold(clean, st1, [[]]) == Fold(clean, Step(clean, st1, []), [[]][1..]);
  }

  lemma MarkerIsPlain(clean: Bytes -> Bytes, cfg: Config)
    requires NewlineMode(cfg)
    ensures Terminated(TruncMarker(cfg)) && PlainLines(TruncMarker(cfg)) && NamesOf(clean, TruncMarker(cfg)) == []
  {
    var text := "# truncated = 1";
    assert TruncMarker(cfg) == text + "\n";
    OneLine(text);
    assert text[4] != PREFIX[4];
    MetaLineDecoded(clean, text, []);
    assert text + [] == text;
    assert Names(clean, [text]) == FrameOf(clean, text) + Names(clean, [text][1..]);
  }

  // ---------- a whole chunked trace ----------

  /** Gathering parked chunks in order gives the names of the concatenated bodies. */
  lemma {:induction false} GatherInOrder(clean: Bytes -> Bytes, saved: map<nat, Frames>, keys: seq<nat>,
                                         bodies: seq<Bytes>, from: nat)
    requires forall k :: k in keys ==> k in saved
    requires |keys| == |bodies| && forall i :: 0 <= i < |keys| ==> keys[i] == from + i
    requires forall i :: 0 <= i < |bodies| ==>
               Terminated(bodies[i]) && from + i in saved && saved[from + i] == NamesOf(clean, bodies[i])
    ensures Gather(saved, keys) == NamesOf(clean, Flatten(bodies))
    decreases |keys|
  {
    hide NamesOf, Terminated;
    if keys == [] {
      assert NamesOf(clean, []) == [] by { NamesOfEmpty(clean); }
    } else {
      forall i | 0 <= i < |bodies[1..]|
        ensures Terminated(bodies[1..][i]) && from + 1 + i in saved
        ensures saved[from + 1 + i] == NamesOf(clean, bodies[1..][i])
      {
        assert bodies[1..][i] == bodies[i + 1] && from + 1 + i == from + (i + 1);
      }
      GatherInOrder(clean, saved, keys[1..], bodies[1..], from + 1);
      assert saved[keys[0]] == saved[from + 0];
      NamesOfConcat(clean, bodies[0], Flatten(bodies[1..]));
    }
  }

  lemma NamesOfEmpty(clean: Bytes -> Bytes)
    ensures NamesOf(clean, []) == []
  {
  }
}
