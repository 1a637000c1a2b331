/**
 The output handler of `event_fout.c`: a growable byte buffer filled record by record, and the
 loop that cuts it into writes. What it computes is stated with the functions of `TraceFormat`.
 */
module Fout {
  import opened Text
  import opened TraceFormat

  const INT_MAX: nat := 0x7fff_ffff

  class Handler {
    const cfg: Config
    var buf: array<char>  // its length is `cap`
    var len: nat
    var truncated: bool

    ghost predicate Valid()
      reads this, buf
    {
      cfg.Valid() && len < buf.Length <= MAX_BUFFER
    }

    ghost function State(): Buffered
      requires Valid()
      reads this, buf
    {
      Buffered(buf[..len], truncated)
    }

    constructor (cfg: Config)
      requires cfg.Valid() && cfg.size <= MAX_BUFFER
      ensures Valid() && this.cfg == cfg && fresh(buf) && State() == EMPTY
    {
      this.cfg := cfg;
      buf := new char[cfg.size];
      len, truncated := 0, false;
    }

    /** INIT: a buffer size above the ceiling, or a failed allocation, refuses the handler. */
    static method Init(cfg: Config, granted: bool) returns (h: Handler?)
      requires cfg.Valid()
      ensures h != null <==> cfg.size <= MAX_BUFFER && granted
      ensures h != null ==> fresh(h) && fresh(h.buf) && h.cfg == cfg && h.Valid() && h.State() == EMPTY
    {
      if cfg.size > MAX_BUFFER || !granted {
        return null;
      }
      h := new Handler(cfg);
    }

    method StackBegin()
      requires Valid()
      modifies this, buf
      ensures Valid() && buf == old(buf) && State() == EMPTY
    {
      len := 0;
      buf[0] := '\0';
      truncated := false;
    }

    /** `vsnprintf` behind the current contents; `text` is what the format expands to. */
    method Vsnprintf(text: Bytes) returns (n: int)
      requires Valid()
      modifies buf
      ensures buf[..len] == old(buf[..len])
      ensures n == if |text| > INT_MAX then -1 else |text|
      ensures 0 <= n < buf.Length - len ==> buf[len..len + n] == text
    {
      if |text| > INT_MAX {
        return -1;
      }
      var rem := buf.Length - len;
      var stop := if |text| < rem then |text| else rem - 1;
      for i := 0 to stop
        invariant forall k :: 0 <= k < len ==> buf[k] == old(buf[k])
        invariant forall k :: 0 <= k < i ==> buf[len + k] == text[k]
      {
        buf[len + i] := text[i];
      }
      buf[len + stop] := '\0';
      n := |text|;
    }

    /** Doubles the capacity up to the ceiling; the contents move along. */
    method Realloc(needed: nat, granted: bool) returns (ok: bool)
      requires Valid()
      modifies this`buf
      ensures Valid()
      ensures ok <==> needed <= MAX_BUFFER && granted
      ensures if ok then fresh(buf) && needed <= buf.Length && old(buf.Length) <= buf.Length else buf == old(buf)
      ensures buf[..len] == old(buf[..len])
    {
      if needed > MAX_BUFFER {
        return false;
      }
      var newCap := buf.Length;
      while newCap < needed
        invariant buf.Length <= newCap
        decreases needed - newCap
      {
        newCap := newCap * 2;
      }
      if newCap > MAX_BUFFER {
        newCap := MAX_BUFFER;
      }
      if !granted {
        return false;
      }
      var newBuf := new char[newCap];
      forall i | 0 <= i < buf.Length {
        newBuf[i] := buf[i];
      }
      buf := newBuf;
      ok := true;
    }

    /** Falls back to the end of the last complete record. */
    method Truncate()
      requires Valid() && !truncated
      modifies this, buf
      ensures Valid() && buf == old(buf)
      ensures State() == AppendText(cfg, old(State()), [], false)
    {
      truncated := true;
      len := LastIndexOf(buf[..len], cfg.frame) + 1;
      buf[len] := '\0';
    }

    /** One delimiter pass: overwrites every `c` from `cur` on, and says where the last one was. */
    method BlotFrom(c: char, cur: nat, stop: nat) returns (next: nat)
      requires cur <= stop <= buf.Length && c != '?'
      modifies buf
      ensures forall i :: 0 <= i < buf.Length ==>
                buf[i] == if cur <= i < stop && old(buf[i]) == c then '?' else old(buf[i])
      ensures next == cur + LastIndexOf(old(buf[cur..stop]), c) + 1
    {
      hide LastIndexOf, IndexOf;
      next := cur;
      while next < stop
        invariant cur <= next <= stop
        invariant forall i :: 0 <= i < buf.Length && !(cur <= i < next) ==> buf[i] == old(buf[i])
        invariant forall i :: cur <= i < next ==> buf[i] == if old(buf[i]) == c then '?' else old(buf[i])
        invariant next > cur ==> old(buf[next - 1]) == c
      {
        var i := IndexOf(buf[next..stop], c);
        if next + i == stop {
          break;
        }
        buf[next + i] := '?';
        next := next + i + 1;
      }
      assert forall i :: next <= i < stop ==> old(buf[i]) != c;
    }

    /** The two delimiter passes; the second resumes where the first stopped. */
    method StripDelims(start: nat, stop: nat)
      requires cfg.Valid() && start <= stop <= buf.Length
      modifies buf
      ensures forall i :: 0 <= i < start ==> buf[i] == old(buf[i])
      ensures buf[start..stop] == Strip(cfg, old(buf[start..stop]))
    {
      hide LastIndexOf;
      ghost var text := buf[start..stop];
      var cur := BlotFrom(cfg.frame, start, stop);
      var _ := BlotFrom(cfg.trace, cur, stop);
      ghost var last := LastIndexOf(text, cfg.frame);
      assert forall i :: start <= i < stop ==> buf[i] == Cleaned(cfg, text[i - start], i - start <= last);
      assert |buf[start..stop]| == |Strip(cfg, text)|;
      forall k | 0 <= k < |text|
        ensures buf[start..stop][k] == Strip(cfg, text)[k]
      {
        assert buf[start..stop][k] == buf[start + k];
      }
    }

    /** The formatting half of an append: grows the buffer if the first attempt did not fit. */
    method Format(text: Bytes, granted: bool) returns (room: bool)
      requires Valid()
      modifies this`buf, buf
      ensures Valid() && (buf == old(buf) || fresh(buf))
      ensures room <==> Fits(len, |text|) && (granted || len + |text| < old(buf.Length))
      ensures buf[..len] == old(buf[..len])
      ensures room ==> len + |text| < buf.Length && buf[len..len + |text|] == text
    {
      var n := Vsnprintf(text);
      if n < 0 {
        return false;
      }
      if n >= buf.Length - len {
        room := Realloc(len + n + 1, granted);
        if room {
          n := Vsnprintf(text);
        }
        return;
      }
      room := true;
    }

    /** `event_handler_fout_snprintf`: appends, growing if need be, or truncates for good. */
    method Snprintf(strip: bool, text: Bytes, granted: bool) returns (room: bool)
      requires Valid()
      modifies this, buf
      ensures Valid() && (buf == old(buf) || fresh(buf))
      ensures !old(truncated) ==>
                (room <==> Fits(old(len), |text|) && (granted || old(len) + |text| < old(buf.Length)))
      ensures State() == AppendText(cfg, old(State()), if strip then Strip(cfg, text) else text, room)
    {
      hide Strip, LastIndexOf;
      ghost var before := State();
      if truncated {
        return false;
      }
      room := Format(text, granted);
      if !room {
        Truncate();
        return;
      }
      if strip {
        StripDelims(len, len + |text|);
      }
      ghost var body := if strip then Strip(cfg, text) else text;
      assert buf[len..len + |text|] == body;
      assert buf[..len + |text|] == before.bytes + body;
      len := len + |text|;
    }

    /** A record event: body, then delimiter. `granted` is what the allocator would say to each of
        the two appends, `g` whether they have their memory in the end. Records stay whole. */
    method RecordEvent(text: Bytes, granted: Grant) returns (ghost g: Grant)
      requires Valid()
      modifies this, buf
      ensures Valid() && (buf == old(buf) || fresh(buf))
      ensures Obliges(granted, g)
      ensures !old(truncated) && !granted.body ==> (g.body <==> old(len) + |text| < old(buf.Length))
      ensures State() == AppendRecordUnder(cfg, old(State()), text, g)
      ensures WholeRecords(cfg, old(State()).bytes) && !old(truncated) ==>
                State() == var next := old(State()).bytes + RecordBytes(cfg, text);
                           if |next| + 1 <= MAX_BUFFER && g == GRANTED then Buffered(next, false)
                           else Buffered(old(State()).bytes, true)
    {
      hide Strip, LastIndexOf;
      ghost var before, cap := State(), buf.Length;
      var room := Snprintf(true, text, granted.body);
      ghost var middle, cap' := State(), buf.Length;
      var room' := Snprintf(false, [cfg.frame], granted.delim);
      g := Grant(granted.body || |before.bytes| + |text| < cap, granted.delim || |middle.bytes| + 1 < cap');
      if WholeRecords(cfg, before.bytes) && !before.truncated {
        AppendRecordWhole(cfg, before.bytes, text, g);
      }
    }

    /** A whole stack's worth of events, under any allocator. */
    method Collect(texts: seq<Bytes>, granted: seq<Grant>) returns (ghost grants: seq<Grant>, ghost k: nat)
      requires Valid() && |granted| == |texts|
      modifies this, buf
      ensures Valid() && (buf == old(buf) || fresh(buf))
      ensures |grants| == |texts| && forall i :: 0 <= i < |texts| ==> Obliges(granted[i], grants[i])
      ensures StoppedAt(cfg, texts, grants, k)
      ensures State() == BuiltUnder(cfg, texts, grants) == Buffered(Framed(cfg, texts[..k]), k < |texts|)
    {
      hide AppendRecordUnder, RecordBytes, WholeRecords, Framed, Obliges;
      StackBegin();
      grants := [];
      for i := 0 to |texts|
        invariant Valid() && (buf == old(buf) || fresh(buf))
        invariant |grants| == i && forall j :: 0 <= j < i ==> Obliges(granted[j], grants[j])
        invariant State() == BuiltUnder(cfg, texts[..i], grants)
      {
        ghost var g := RecordEvent(texts[i], granted[i]);
        assert texts[..i + 1][..i] == texts[..i] && (grants + [g])[..i] == grants;
        grants := grants + [g];
      }
      assert texts[..|texts|] == texts;
      k := BuiltUnderKeepsPrefix(cfg, texts, grants);
    }

    /** `event_handler_fout_write_chunk`: the sentinel is patched into the tail before writing. */
    method WriteChunk(body: Bytes, id: nat, k: nat, sentinel: char) returns (write: Bytes)
      requires id < TWO_64 && k < TWO_64
      ensures write == body + Tail(cfg, id, k, sentinel)
    {
      var tail := Tail(cfg, id, k, '~');
      TailFitsItsArray(cfg, id, k, '~');
      write := body + tail[|tail| - 3 := sentinel];
    }

    /** Sizes chunk `k` by its own tail and finds where it ends; 0 if not one record fits. */
    method NextChunk(id: nat, k: nat, rest: Bytes) returns (n: nat)
      ensures n == ChunkEnd(cfg, rest, Room(cfg, id, k))
    {
      var tail := Tail(cfg, id, k, '~');
      var room := if cfg.size > |tail| then cfg.size - |tail| else 0;
      n := ChunkEnd(cfg, rest, room);
    }

    /** The chunk loop: numbered without gaps, `!` on the last chunk only, the marker last of all. */
    method WriteChunked(id: nat) returns (writes: seq<Bytes>)
      requires Valid() && len > 0 && id < TWO_64
      modifies this`truncated
      ensures Valid()
      ensures writes == Numbered(cfg, id, ChunkBodies(cfg, id, old(State())), true)
      ensures truncated <==> old(truncated) || LeftOver(cfg, id, 0, old(State()).bytes) != []
    {
      hide ChunkEnd, Room, Tail, LastIndexOf, TruncMarker;
      ghost var all, bodies: seq<Bytes> := buf[..len], [];
      var rest, k := buf[..len], 0;  // from `chunk_start` to `stop`
      writes := [];
      while rest != []
        invariant truncated == old(truncated) && k == |bodies| && k + |rest| <= len
        invariant Bodies(cfg, id, 0, all) == bodies + Bodies(cfg, id, k, rest)
        invariant LeftOver(cfg, id, 0, all) == LeftOver(cfg, id, k, rest)
        invariant writes == Numbered(cfg, id, bodies, rest == [] && !truncated)
      {
        var n := NextChunk(id, k, rest);
        if n == 0 {
          break;
        }
        var sentinel := if n == |rest| && !truncated then '!' else '~';
        var write := WriteChunk(rest[..n], id, k, sentinel);
        NumberedSnoc(cfg, id, bodies, rest[..n], sentinel == '!');
        BodiesStep(cfg, id, bodies, rest, n);
        writes, bodies := writes + [write], bodies + [rest[..n]];
        rest, k := rest[n..], k + 1;
      }
      assert Bodies(cfg, id, k, rest) == [] && LeftOver(cfg, id, k, rest) == rest;
      if rest != [] {
        truncated := true;
      }
      assert bodies + [] == bodies == Bodies(cfg, id, 0, all);
      if truncated {
        var write := WriteChunk(TruncMarker(cfg), id, k, '!');
        NumberedSnoc(cfg, id, bodies, TruncMarker(cfg), true);
        writes := writes + [write];
      }
    }

    /** `event_handler_fout_write`: whole if it fits `-b`, in chunks under a fresh id otherwise. */
    method Write(id: nat) returns (writes: seq<Bytes>)
      requires Valid() && len > 0 && id < TWO_64
      modifies this`truncated
      ensures Valid()
      ensures writes == Writes(cfg, id, old(State()))
    {
      var total := len + 1;
      if truncated {
        total := total + |TruncMarker(cfg)|;
      }
      if total <= cfg.size {
        writes := [buf[..len] + (if truncated then TruncMarker(cfg) else []) + [cfg.trace]];
      } else {
        writes := WriteChunked(id);
      }
    }

    /** The optional records of STACK_END, behind a buffer that holds some already. */
    method AddRecords(texts: seq<Bytes>, granted: seq<Grant>) returns (ghost grants: seq<Grant>)
      requires Valid() && |granted| == |texts|
      modifies this, buf
      ensures Valid() && (buf == old(buf) || fresh(buf))
      ensures |grants| == |texts| && forall i :: 0 <= i < |texts| ==> Obliges(granted[i], grants[i])
      ensures State() == AppendRecords(cfg, old(State()), texts, grants)
    {
      hide AppendRecordUnder, RecordBytes, WholeRecords, Obliges;
      ghost var before := State();
      grants := [];
      for i := 0 to |texts|
        invariant Valid() && (buf == old(buf) || fresh(buf))
        invariant |grants| == i && forall j :: 0 <= j < i ==> Obliges(granted[j], grants[j])
        invariant State() == AppendRecords(cfg, before, texts[..i], grants)
      {
        ghost var g := RecordEvent(texts[i], granted[i]);
        assert texts[..i + 1][..i] == texts[..i] && (grants + [g])[..i] == grants;
        grants := grants + [g];
      }
      assert texts[..|texts|] == texts;
    }

    /** STACK_END: nothing is written for an empty buffer or a trace the filter rejects. */
    method StackEnd(id: nat, rejected: bool, verbose: seq<Bytes>, granted: seq<Grant>)
      returns (writes: seq<Bytes>, ghost grants: seq<Grant>)
      requires Valid() && WholeRecords(cfg, State().bytes) && id < TWO_64 && |granted| == |verbose|
      modifies this, buf
      ensures Valid() && (buf == old(buf) || fresh(buf))
      ensures |grants| == |verbose| && forall i :: 0 <= i < |verbose| ==> Obliges(granted[i], grants[i])
      ensures writes == if old(len) == 0 || rejected then []
                        else Writes(cfg, id, AppendRecords(cfg, old(State()), verbose, grants))
    {
      hide Writes, AppendRecords;
      if len == 0 || rejected {
        return [], granted;
      }
      ghost var before := State();
      grants := AddRecords(verbose, granted);
      RecordsStay(cfg, before, verbose, grants);
      assert |State().bytes| > 0;
      writes := Write(id);
    }

    /** A whole trace, from STACK_BEGIN to the writes of STACK_END, under any allocator. */
    method Trace(texts: seq<Bytes>, verbose: seq<Bytes>, granted: seq<Grant>, id: nat, rejected: bool)
      returns (writes: seq<Bytes>, ghost grants: seq<Grant>)
      requires Valid() && id < TWO_64 && |granted| == |texts| + |verbose|
      modifies this, buf
      ensures Valid() && (buf == old(buf) || fresh(buf))
      ensures |grants| == |granted| && forall i :: 0 <= i < |grants| ==> Obliges(granted[i], grants[i])
      ensures writes == if rejected || !FirstKept(texts, grants[..|texts|]) then []
                        else Writes(cfg, id, BuiltUnder(cfg, texts + verbose, grants))
      ensures (forall i :: 0 <= i < |granted| ==> granted[i] == GRANTED) ==>
                writes == if rejected || Built(cfg, texts).bytes == [] then []
                          else Writes(cfg, id, Built(cfg, texts + verbose))
    {
      hide Built, BuiltUnder, Writes, Framed, FirstKept;
      ghost var k, mine, more;
      mine, k := Collect(texts, granted[..|texts|]);
      FramedWhole(cfg, texts[..k]);
      NothingKeptIff(cfg, texts, mine);
      writes, more := StackEnd(id, rejected, verbose, granted[|texts|..]);
      grants := mine + more;
      BuiltInTwoParts(cfg, texts, verbose, mine, more);
      assert grants[..|texts|] == mine;
      if forall i :: 0 <= i < |granted| ==> granted[i] == GRANTED {
        BuiltWhenGranted(cfg, texts, mine);
        BuiltWhenGranted(cfg, texts + verbose, grants);
      }
    }
  }

  /** Memory that the allocator grants is there; more may be, from before. */
  predicate Obliges(granted: Grant, g: Grant) {
    (granted.body ==> g.body) && (granted.delim ==> g.delim)
  }

  /** Complete records are never lost again to later ones. */
  lemma {:induction false} RecordsStay(cfg: Config, b: Buffered, texts: seq<Bytes>, grants: seq<Grant>)
    requires cfg.Valid() && |grants| == |texts| && WholeRecords(cfg, b.bytes)
    ensures WholeRecords(cfg, AppendRecords(cfg, b, texts, grants).bytes)
    ensures b.bytes <= AppendRecords(cfg, b, texts, grants).bytes
  {
    hide Strip, LastIndexOf;
    if texts != [] {
      var n := |texts| - 1;
      var c := AppendRecords(cfg, b, texts[..n], grants[..n]);
      RecordsStay(cfg, b, texts[..n], grants[..n]);
      if !c.truncated {
        AppendRecordWhole(cfg, c.bytes, texts[n], grants[n]);
      }
    }
  }

  lemma {:induction false} BuiltInTwoParts(cfg: Config, a: seq<Bytes>, b: seq<Bytes>,
                                           ga: seq<Grant>, gb: seq<Grant>)
    requires |ga| == |a| && |gb| == |b|
    ensures AppendRecords(cfg, BuiltUnder(cfg, a, ga), b, gb) == BuiltUnder(cfg, a + b, ga + gb)
  {
    hide AppendRecordUnder;
    if b == [] {
      assert a + b == a && ga + gb == ga;
    } else {
      var n := |b| - 1;
      BuiltInTwoParts(cfg, a, b[..n], ga, gb[..n]);
      assert (a + b)[..|a| + n] == a + b[..n] && (ga + gb)[..|a| + n] == ga + gb[..n];
    }
  }

  /** Further record events on a buffer that already holds some. */
  function AppendRecords(cfg: Config, b: Buffered, texts: seq<Bytes>, grants: seq<Grant>): Buffered
    requires |grants| == |texts|
  {
    if texts == [] then b
    else
      var n := |texts| - 1;
      AppendRecordUnder(cfg, AppendRecords(cfg, b, texts[..n], grants[..n]), texts[n], grants[n])
  }
}
