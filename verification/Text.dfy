/**
 Byte strings, and the C and Perl text primitives the other modules are written with.
 A `char` stands for one byte throughout.
 */
module Text {

  type Bytes = string

  datatype Option<+T> = None | Some(value: T)

  // ---------- searching ----------

  /** `memchr`: the first position of `c`, or the length when there is none. */
  function IndexOf(s: Bytes, c: char): (i: nat)
    ensures i <= |s|
    ensures forall j :: 0 <= j < i ==> s[j] != c
    ensures i < |s| ==> s[i] == c
  {
    if s == [] || s[0] == c then 0 else 1 + IndexOf(s[1..], c)
  }

  /** `memrchr`: the last position of `c`, or -1. */
  function LastIndexOf(s: Bytes, c: char): (i: int)
    ensures -1 <= i < |s|
    ensures i >= 0 ==> s[i] == c
    ensures forall j :: i < j < |s| ==> s[j] != c
  {
    if s == [] then -1
    else if s[|s| - 1] == c then |s| - 1
    else LastIndexOf(s[..|s| - 1], c)
  }

  /** Every occurrence of `c` overwritten by `'?'`. */
  function Blot(s: Bytes, c: char): (r: Bytes)
    ensures |r| == |s|
    ensures forall i :: 0 <= i < |s| ==> r[i] == (if s[i] == c then '?' else s[i])
  {
    seq(|s|, i requires 0 <= i < |s| => if s[i] == c then '?' else s[i])
  }

  lemma BlotConcat(a: Bytes, b: Bytes, c: char)
    ensures Blot(a + b, c) == Blot(a, c) + Blot(b, c)
  {
  }

  lemma BlotAbsent(s: Bytes, c: char)
    requires c !in s
    ensures Blot(s, c) == s
  {
  }

  // ---------- decimal numbers ----------

  predicate IsDigit(c: char) { '0' <= c <= '9' }

  function DigitChar(d: nat): (c: char)
    requires d < 10
    ensures IsDigit(c) && DigitValue(c) == d
  {
    ('0' as int + d) as char
  }

  /** `%d` of a non-negative number, `%PRIu64`. */
  function Decimal(n: nat): (r: Bytes)
    ensures |r| > 0
    ensures forall i :: 0 <= i < |r| ==> IsDigit(r[i])
  {
    if n < 10 then [DigitChar(n)] else Decimal(n / 10) + [DigitChar(n % 10)]
  }

  /** `%d` of any number. */
  function SignedDecimal(n: int): Bytes {
    if n < 0 then "-" + Decimal(-n) else Decimal(n)
  }

  function DigitValue(c: char): nat
    requires IsDigit(c)
  {
    c as int - '0' as int
  }

  function ValueOf(s: Bytes): nat
    requires forall i :: 0 <= i < |s| ==> IsDigit(s[i])
  {
    if s == [] then 0
    else 10 * ValueOf(s[..|s| - 1]) + DigitValue(s[|s| - 1])
  }

  lemma {:induction false} DecimalValue(n: nat)
    ensures ValueOf(Decimal(n)) == n
  {
    var r := Decimal(n);
    if n >= 10 {
      DecimalValue(n / 10);
      assert r[..|r| - 1] == Decimal(n / 10);
    } else {
      assert r[..|r| - 1] == [];
    }
  }

  lemma {:induction false} DecimalMonotone(m: nat, n: nat)
    requires m <= n
    ensures |Decimal(m)| <= |Decimal(n)|
  {
    if m >= 10 {
      DecimalMonotone(m / 10, n / 10);
    }
  }

  function Pow10(e: nat): (p: nat)
    ensures p > 0
  {
    if e == 0 then 1 else 10 * Pow10(e - 1)
  }

  lemma {:induction false} DecimalLength(n: nat, e: nat)
    requires 0 < e && n < Pow10(e)
    ensures |Decimal(n)| <= e
  {
    if n >= 10 {
      assert Pow10(e) == 10 * Pow10(e - 1);
      assert Pow10(0) == 1;
      DecimalLength(n / 10, e - 1);
    }
  }

  const TWO_64: nat := 0x1_0000_0000_0000_0000

  /** A 64-bit number prints in at most twenty digits. */
  lemma Uint64Digits(n: nat)
    requires n < TWO_64
    ensures |Decimal(n)| <= 20
  {
    assert Pow10(20) == 100_000_000_000_000_000_000 by {
      assert Pow10(4) == 10_000;
      assert Pow10(8) == 100_000_000;
      assert Pow10(12) == 1_000_000_000_000;
      assert Pow10(16) == 10_000_000_000_000_000;
    }
    DecimalLength(n, 20);
  }

  /** Length of the run of digits a string starts with (`\d*`). */
  function DigitSpan(s: Bytes): (n: nat)
    ensures n <= |s|
    ensures forall i :: 0 <= i < n ==> IsDigit(s[i])
    ensures n < |s| ==> !IsDigit(s[n])
  {
    if s == [] || !IsDigit(s[0]) then 0 else 1 + DigitSpan(s[1..])
  }

  lemma {:induction false} DigitSpanOf(digits: Bytes, rest: Bytes)
    requires forall i :: 0 <= i < |digits| ==> IsDigit(digits[i])
    requires rest == [] || !IsDigit(rest[0])
    ensures DigitSpan(digits + rest) == |digits|
  {
    if digits == [] {
      assert digits + rest == rest;
    } else {
      assert (digits + rest)[1..] == digits[1..] + rest;
      DigitSpanOf(digits[1..], rest);
    }
  }

  // ---------- words ----------

  /** Perl's `\s`. */
  predicate IsSpace(c: char) {
    c == ' ' || c == '\t' || c == '\n' || c == '\r' || c == '\U{0B}' || c == '\U{0C}'
  }

  /** The longest prefix without white space. */
  function FirstWord(s: Bytes): (w: Bytes)
    ensures w <= s
    ensures forall i :: 0 <= i < |w| ==> !IsSpace(w[i])
    ensures |w| < |s| ==> IsSpace(s[|w|])
  {
    if s == [] || IsSpace(s[0]) then [] else [s[0]] + FirstWord(s[1..])
  }

  /** A word survives whatever white space and text follow it. */
  lemma {:induction false} FirstWordBefore(s: Bytes, rest: Bytes)
    requires rest == [] || IsSpace(rest[0])
    ensures FirstWord(s + rest) == FirstWord(s)
  {
    if s == [] {
      assert s + rest == rest;
    } else if !IsSpace(s[0]) {
      assert (s + rest)[1..] == s[1..] + rest;
      FirstWordBefore(s[1..], rest);
    }
  }

  /** The bytes `%s` prints: everything before the first NUL. */
  function CString(s: Bytes): (r: Bytes)
    ensures r <= s
  {
    s[..IndexOf(s, '\0')]
  }

  lemma IndexOfWhole(s: Bytes, c: char)
    ensures IndexOf(s, c) == |s| <==> c !in s
  {
  }

  /** A string without NUL prints to its end, and what prints has no NUL. */
  lemma CStringNul(s: Bytes)
    ensures '\0' !in CString(s)
    ensures '\0' !in s ==> CString(s) == s
  {
    hide IndexOf;
    IndexOfWhole(s, '\0');
  }

  // ---------- lists ----------

  lemma ConcatAssoc<T>(a: seq<T>, b: seq<T>, c: seq<T>)
    ensures a + b + c == a + (b + c)
  {
  }

  function Flatten<T>(ss: seq<seq<T>>): seq<T> {
    if ss == [] then [] else ss[0] + Flatten(ss[1..])
  }

  lemma FlattenNothing()
    ensures Flatten<char>([]) == []
  {
  }

  lemma FlattenCons<T>(x: seq<T>, a: seq<seq<T>>)
    ensures Flatten([x] + a) == x + Flatten(a)
  {
    assert ([x] + a)[1..] == a;
  }

  lemma {:induction false} FlattenConcat<T>(a: seq<seq<T>>, b: seq<seq<T>>)
    ensures Flatten(a + b) == Flatten(a) + Flatten(b)
  {
    if a == [] {
      assert a + b == b;
    } else {
      FlattenConcat(a[1..], b);
      assert (a + b)[0] == a[0] && (a + b)[1..] == a[1..] + b;
      ConcatAssoc(a[0], Flatten(a[1..]), Flatten(b));
    }
  }

  lemma FlattenSnoc<T>(a: seq<seq<T>>, x: seq<T>)
    ensures Flatten(a + [x]) == Flatten(a) + x
  {
    FlattenConcat(a, [x]);
    assert Flatten([x]) == x + Flatten([]);
  }

  function Reverse<T>(s: seq<T>): (r: seq<T>)
    ensures |r| == |s|
    ensures forall i :: 0 <= i < |s| ==> r[i] == s[|s| - 1 - i]
  {
    if s == [] then [] else Reverse(s[1..]) + [s[0]]
  }

  /** Perl's `join(';', ...)`. */
  function Join(parts: seq<Bytes>, sep: char): Bytes {
    if parts == [] then []
    else if |parts| == 1 then parts[0]
    else parts[0] + [sep] + Join(parts[1..], sep)
  }

  // ---------- lines ----------

  /** The lines a reader of `s` sees, newline removed; a last line without newline counts. */
  function Lines(s: Bytes): seq<Bytes>
    decreases |s|
  {
    if s == [] then []
    else
      var i := IndexOf(s, '\n');
      if i == |s| then [s] else [s[..i]] + Lines(s[i + 1..])
  }

  /** `s` consists of whole lines. */
  predicate Terminated(s: Bytes) { s == [] || s[|s| - 1] == '\n' }

  lemma {:induction false} IndexOfConcat(a: Bytes, b: Bytes, c: char)
    requires c in a
    ensures IndexOf(a + b, c) == IndexOf(a, c) < |a|
  {
    if a[0] != c {
      assert a == [a[0]] + a[1..];
      assert (a + b)[1..] == a[1..] + b;
      IndexOfConcat(a[1..], b, c);
    }
  }

  lemma {:induction false} IndexOfAfter(a: Bytes, b: Bytes, c: char)
    requires c !in a && b != [] && b[0] == c
    ensures IndexOf(a + b, c) == |a|
  {
    if a == [] {
      assert a + b == b;
    } else {
      assert (a + b)[1..] == a[1..] + b;
      IndexOfAfter(a[1..], b, c);
    }
  }

  lemma {:induction false} LinesConcat(a: Bytes, b: Bytes)
    requires Terminated(a)
    ensures Lines(a + b) == Lines(a) + Lines(b)
    decreases |a|
  {
    hide IndexOf;
    if a == [] {
      assert a + b == b;
    } else {
      assert a[|a| - 1] in a;
      IndexOfConcat(a, b, '\n');
      var i := IndexOf(a, '\n');
      var rest := a[i + 1..];
      assert (a + b)[i + 1..] == rest + b && (a + b)[..i] == a[..i];
      LinesConcat(rest, b);
      ConcatAssoc([a[..i]], Lines(rest), Lines(b));
    }
  }

  lemma OneLine(body: Bytes)
    requires '\n' !in body
    ensures Lines(body + "\n") == [body]
  {
    var s := body + "\n";
    IndexOfAfter(body, "\n", '\n');
    assert s[..|body|] == body;
    assert s[|body| + 1..] == [];
  }
}
