/**
 The records a trace is made of, as `event_handler_fout` formats them, and what the decoder makes
 of each of them in newline mode.
 */
module Records {
  import opened Text
  import opened TraceFormat
  import opened Collapse

  datatype Label = Varpeek | Glopeek | Uri | Path | Qstring | Cookie | Ts | Mem | TraceTs | Pid

  datatype Record =
    | Frame(depth: nat, cls: Bytes, func: Bytes, file: Bytes, lineno: int)
    | Meta(kind: Label, payload: Bytes)

  function LabelText(l: Label): Bytes {
    match l
    case Varpeek => "# varpeek "
    case Glopeek => "# glopeek "
    case Uri => "# uri = "
    case Path => "# path = "
    case Qstring => "# qstring = "
    case Cookie => "# cookie = "
    case Ts => "# ts = "
    case Mem => "# mem "
    case TraceTs => "# trace_ts = "
    case Pid => "# pid = "
  }

  /** `%.*s%s%.*s` of class, `::` and function. */
  function Qualified(cls: Bytes, func: Bytes): Bytes {
    CString(cls) + (if |cls| > 0 then "::" else "") + CString(func)
  }

  function Location(file: Bytes, lineno: int): Bytes {
    CString(file) + ":" + SignedDecimal(lineno)
  }

  function RecordText(r: Record): Bytes {
    match r
    case Frame(depth, cls, func, file, lineno) =>
      Decimal(depth) + (" " + (Qualified(cls, func) + (" " + Location(file, lineno))))
    case Meta(kind, payload) => LabelText(kind) + payload
  }

  function Texts(rs: seq<Record>): seq<Bytes> {
    if rs == [] then [] else [RecordText(rs[0])] + Texts(rs[1..])
  }

  lemma {:induction false} TextsTake(rs: seq<Record>, k: nat)
    ensures |Texts(rs)| == |rs|
    ensures k <= |rs| ==> Texts(rs)[..k] == Texts(rs[..k])
  {
    hide RecordText;
    if rs != [] {
      TextsTake(rs[1..], if k == 0 then 0 else k - 1);
      if 0 < k <= |rs| {
        assert rs[..k][1..] == rs[1..][..k - 1];
        assert Texts(rs)[..k] == [RecordText(rs[0])] + Texts(rs[1..])[..k - 1];
      }
    }
  }

  /** What the decoder should collect from a record: the qualified name up to white space, for a
      frame that has one. Written without reference to the decoder. */
  function NamesIn(clean: Bytes -> Bytes, r: Record): Frames {
    match r
    case Frame(_, cls, func, _, _) =>
      var name := Blot(Qualified(cls, func), '\n');
      if name == [] || IsSpace(name[0]) then [] else [clean(FirstWord(name))]
    case Meta(_, _) => []
  }

  function AllNames(clean: Bytes -> Bytes, rs: seq<Record>): Frames {
    if rs == [] then [] else NamesIn(clean, rs[0]) + AllNames(clean, rs[1..])
  }

  /** An ordinary name, with nothing in it that the line format cannot carry, is kept as it is. */
  lemma OrdinaryNameSurvives(clean: Bytes -> Bytes, f: Record)
    requires f.Frame? && Qualified(f.cls, f.func) != []
    requires forall i :: 0 <= i < |Qualified(f.cls, f.func)| ==> !IsSpace(Qualified(f.cls, f.func)[i])
    ensures NamesIn(clean, f) == [clean(Qualified(f.cls, f.func))]
  {
    hide FirstWord, CString;
    var q := Qualified(f.cls, f.func);
    assert '\n' !in q;
    BlotAbsent(q, '\n');
    WordOfSpaceless(q);
  }

  lemma {:induction false} WordOfSpaceless(s: Bytes)
    requires forall i :: 0 <= i < |s| ==> !IsSpace(s[i])
    ensures FirstWord(s) == s
  {
    if s != [] { WordOfSpaceless(s[1..]); }
  }

  predicate NewlineMode(cfg: Config) { cfg.Valid() && cfg.frame == '\n' }

  // ---------- one record ----------

  lemma BlotCons(c: char, s: Bytes)
    requires c != '\n'
    ensures Blot([c] + s, '\n') == [c] + Blot(s, '\n')
  {
  }

  lemma FrameLineShape(depth: nat, cls: Bytes, func: Bytes, file: Bytes, lineno: int)
    ensures Blot(RecordText(Frame(depth, cls, func, file, lineno)), '\n') ==
            Decimal(depth) + (" " + (Blot(Qualified(cls, func), '\n') + (" " + Blot(Location(file, lineno), '\n'))))
  {
    hide Qualified, Location, Blot;
    var name, loc := Qualified(cls, func), Location(file, lineno);
    BlotConcat(Decimal(depth), " " + (name + (" " + loc)), '\n');
    BlotAbsent(Decimal(depth), '\n');
    BlotCons(' ', name + (" " + loc));
    BlotConcat(name, " " + loc, '\n');
    BlotCons(' ', loc);
  }

  lemma DepthLineDecoded(clean: Bytes -> Bytes, digits: Bytes, rest: Bytes)
    requires digits != [] && forall i :: 0 <= i < |digits| ==> IsDigit(digits[i])
    requires rest != []
    ensures FrameOf(clean, digits + (" " + rest)) == if IsSpace(rest[0]) then [] else [clean(FirstWord(rest))]
  {
    hide DigitSpan, FirstWord;
    var line := digits + (" " + rest);
    DigitSpanOf(digits, " " + rest);
    assert line[0] == digits[0] != '#';
    assert line[|digits|] == ' ' && line[|digits| + 1] == rest[0];
    assert line[|digits| + 1..] == rest;
  }

  /** Digits, a space, a name, a space, a place: the decoder takes the name's first word. */
  lemma FrameLineDecoded(clean: Bytes -> Bytes, digits: Bytes, name: Bytes, loc: Bytes)
    requires digits != [] && forall i :: 0 <= i < |digits| ==> IsDigit(digits[i])
    ensures FrameOf(clean, digits + (" " + (name + (" " + loc)))) ==
            if name == [] || IsSpace(name[0]) then [] else [clean(FirstWord(name))]
  {
    hide FrameOf, FirstWord;
    var rest := name + (" " + loc);
    DepthLineDecoded(clean, digits, rest);
    FirstWordBefore(name, " " + loc);
    assert rest[0] == if name == [] then ' ' else name[0];
  }

  lemma DigitLineIsPlain(digits: Bytes, rest: Bytes)
    requires digits != [] && IsDigit(digits[0])
    ensures PlainLine(digits + rest)
  {
    assert (digits + rest)[0] == digits[0] != PREFIX[0];
  }

  lemma MetaLineDecoded(clean: Bytes -> Bytes, head: Bytes, rest: Bytes)
    requires 1 <= |head| && head[0] == '#'
    requires exists i :: 0 <= i < |head| && i < |PREFIX| && head[i] != PREFIX[i]
    ensures PlainLine(head + rest) && FrameOf(clean, head + rest) == []
  {
    var line := head + rest;
    assert line[0] == '#';
    var i :| 0 <= i < |head| && i < |PREFIX| && head[i] != PREFIX[i];
    assert line[i] != PREFIX[i];
  }

  /** No metadata label can be taken for the trace id record. */
  lemma LabelIsNotTraceId(l: Label)
    ensures LabelText(l)[0] == '#' && '\n' !in LabelText(l)
    ensures exists i :: 0 <= i < |LabelText(l)| && i < |PREFIX| && LabelText(l)[i] != PREFIX[i]
  {
    var i := if l.TraceTs? then 8 else if l.Ts? then 3 else 2;
    assert LabelText(l)[i] != PREFIX[i];
  }

  /** A record is one plain line, and the decoder collects from it exactly the record's names. */
  lemma RecordDecoded(clean: Bytes -> Bytes, cfg: Config, r: Record)
    requires NewlineMode(cfg)
    ensures '\n' !in Strip(cfg, RecordText(r))
    ensures PlainLine(Strip(cfg, RecordText(r)))
    ensures FrameOf(clean, Strip(cfg, RecordText(r))) == NamesIn(clean, r)
  {
    hide Strip, MatchTraceId, LooksLikeRecord, FrameOf;
    StripRemovesFrameDelimiter(cfg, RecordText(r));
    StripNewlineMode(cfg, RecordText(r));
    match r
    case Frame(depth, cls, func, file, lineno) =>
      FrameLineShape(depth, cls, func, file, lineno);
      var name, loc := Blot(Qualified(cls, func), '\n'), Blot(Location(file, lineno), '\n');
      DigitLineIsPlain(Decimal(depth), " " + (name + (" " + loc)));
      FrameLineDecoded(clean, Decimal(depth), name, loc);
    case Meta(kind, payload) =>
      LabelIsNotTraceId(kind);
      BlotConcat(LabelText(kind), payload, '\n');
      BlotAbsent(LabelText(kind), '\n');
      MetaLineDecoded(clean, LabelText(kind), Blot(payload, '\n'));
  }

  // ---------- many records ----------

  predicate PlainLines(bytes: Bytes) {
    forall i :: 0 <= i < |Lines(bytes)| ==> PlainLine(Lines(bytes)[i])
  }

  /** Framed records read back as plain lines carrying exactly their names. */
  lemma {:induction false} RecordsDecoded(clean: Bytes -> Bytes, cfg: Config, rs: seq<Record>)
    requires NewlineMode(cfg)
    ensures PlainLines(Framed(cfg, Texts(rs)))
    ensures Names(clean, Lines(Framed(cfg, Texts(rs)))) == AllNames(clean, rs)
  {
    hide Strip, RecordText, FrameOf, NamesIn, PlainLine, Lines;
    if rs != [] {
      var body, rest := Strip(cfg, RecordText(rs[0])), Framed(cfg, Texts(rs[1..]));
      assert Framed(cfg, Texts(rs)) == (body + "\n") + rest;
      RecordDecoded(clean, cfg, rs[0]);
      RecordsDecoded(clean, cfg, rs[1..]);
      LinesConcat(body + "\n", rest);
      OneLine(body);
      assert Lines(Framed(cfg, Texts(rs))) == [body] + Lines(rest);
      assert ([body] + Lines(rest))[1..] == Lines(rest);
    } else {
      assert Lines([]) == [] by { NoLines(); }
    }
  }

  lemma NoLines()
    ensures Lines([]) == []
  {
  }
}
