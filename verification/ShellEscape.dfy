/**
 `shell_escape` (`addr_objdump.c`) and the shell that reads its result.
 */
module ShellEscape {
  import opened Text

  /** Inside single quotes a quote is written by leaving, escaping one, and entering again. */
  function Inner(arg: Bytes): (r: Bytes)
    ensures |r| >= |arg|
  {
    if arg == [] then []
    else (if arg[0] == '\'' then "'\\''" else [arg[0]]) + Inner(arg[1..])
  }

  function Quoted(arg: Bytes): Bytes { "'" + Inner(arg) + "'" }

  /** Writes into the first `size` bytes of `buf`, and succeeds exactly if the result and a NUL fit. */
  method Escape(arg: Bytes, buf: array<char>, size: nat) returns (rv: int)
    requires 1 <= size <= buf.Length
    modifies buf
    ensures forall i :: size <= i < buf.Length ==> buf[i] == old(buf[i])
    ensures rv == if |Quoted(arg)| + 1 <= size then 0 else 1
    ensures rv == 0 ==> buf[..|Quoted(arg)|] == Quoted(arg) && buf[|Quoted(arg)|] == '\0'
  {
    var pos, i := 1, 0;
    buf[0] := '\'';
    while i < |arg|
      invariant 0 <= i <= |arg| && 1 <= pos <= size
      invariant forall k :: size <= k < buf.Length ==> buf[k] == old(buf[k])
      invariant buf[..pos] + Inner(arg[i..]) == "'" + Inner(arg)
    {
      ghost var before := buf[..pos];
      ghost var rest := Inner(arg[i + 1..]);
      assert arg[i..][1..] == arg[i + 1..];
      assert |"'" + Inner(arg)| == pos + |Inner(arg[i..])|;
      if arg[i] == '\'' {
        if size - pos < 4 {
          return 1;
        }
        buf[pos], buf[pos + 1], buf[pos + 2], buf[pos + 3] := '\'', '\\', '\'', '\'';
        assert buf[..pos + 4] == before + "'\\''";
        ConcatAssoc(before, "'\\''", rest);
        pos := pos + 4;
      } else {
        if size - pos < 1 {
          return 1;
        }
        buf[pos] := arg[i];
        assert buf[..pos + 1] == before + [arg[i]];
        ConcatAssoc(before, [arg[i]], rest);
        pos := pos + 1;
      }
      i := i + 1;
    }
    assert buf[..pos] + [] == buf[..pos];
    if size - pos < 2 {
      return 1;
    }
    ghost var before := buf[..pos];
    buf[pos] := '\'';
    buf[pos + 1] := '\0';
    assert buf[..pos + 1] == before + "'";
    rv := 0;
  }

  // ---------- the shell's side ----------

  /** Characters that end a word or mean something else when they stand unquoted. */
  predicate Special(c: char) {
    c in " \t\n|&;<>()$`\"*?[#~=%"
  }

  /** The shell's reading of a word (XCU section 2.2): inside single quotes everything is literal up to
      the next quote, a backslash outside keeps the next character. `None` if it is not one plain word. */
  function ReadWord(s: Bytes, inQuotes: bool): Option<Bytes>
    decreases |s|
  {
    if s == [] then (if inQuotes then None else Some([]))
    else if s[0] == '\'' then ReadWord(s[1..], !inQuotes)
    else if inQuotes then Prepend(s[0], ReadWord(s[1..], true))
    else if s[0] == '\\' then
      if |s| < 2 then None
      else if s[1] == '\n' then ReadWord(s[2..], false)
      else Prepend(s[1], ReadWord(s[2..], false))
    else if Special(s[0]) then None
    else Prepend(s[0], ReadWord(s[1..], false))
  }

  function Prepend(c: char, word: Option<Bytes>): Option<Bytes> {
    match word
    case None => None
    case Some(w) => Some([c] + w)
  }

  lemma {:induction false} ReadInner(arg: Bytes)
    ensures ReadWord(Inner(arg) + "'", true) == Some(arg)
  {
    if arg == [] {
      assert Inner(arg) + "'" == "'";
      assert "'"[1..] == [];
    } else {
      var rest := Inner(arg[1..]) + "'";
      ReadInner(arg[1..]);
      assert arg == [arg[0]] + arg[1..];
      if arg[0] == '\'' {
        var s := Inner(arg) + "'";
        assert s == "'\\''" + rest;
        assert s[1..] == "\\''" + rest && s[1..][2..] == "'" + rest && s[1..][2..][1..] == rest;
        assert ReadWord(s[1..][2..], false) == ReadWord(rest, true);
        assert ReadWord(s[1..], false) == Prepend('\'', ReadWord(s[1..][2..], false));
        assert ReadWord(s, true) == ReadWord(s[1..], false);
      } else {
        assert (Inner(arg) + "'")[1..] == rest;
      }
    }
  }

  /** Whatever the argument, the shell reads the escaped form back as that argument, in one word. */
  lemma EscapeRoundTrip(arg: Bytes)
    ensures ReadWord(Quoted(arg), false) == Some(arg)
  {
    ReadInner(arg);
    assert Quoted(arg)[1..] == Inner(arg) + "'";
  }
}
