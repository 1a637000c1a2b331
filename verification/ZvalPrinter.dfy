/**
 Printing PHP values into a fixed buffer (`sprint_zval` and its relatives in `phpspy_trace.c`):
 a mutual recursion that passes ever smaller windows of one buffer down a nested array.
 The remote value is a frozen tree.
 */
module ZvalPrinter {
  import opened Text

  const STR_SIZE: nat := 256
  const MAX_ARRAY_BUCKETS: nat := 128

  datatype Key = NoKey | Key(bytes: Bytes) | UnreadableKey

  datatype Zval =
    | Undef
    | Number(text: Bytes)                       // long or double, as `%ld` or `%f` prints it
    | Str(bytes: Bytes)
    | Arr(packed: bool, slots: seq<Slot>)
    | Unsupported                               // another type, or memory that cannot be read

  datatype Slot = Slot(key: Key, val: Zval)

  function Used(v: Zval): nat
    requires v.Arr?
  {
    if |v.slots| <= MAX_ARRAY_BUCKETS then |v.slots| else MAX_ARRAY_BUCKETS
  }

  // ---------- the ideal: rendering without a bound ----------

  function Render(v: Zval): Bytes
    decreases v, 2
  {
    match v
    case Number(text) => text
    case Str(bytes) => bytes
    case Arr(_, _) => Join(Entries(v, 0), ',')
    case _ => []
  }

  /** `key=value`, `index=value`, a bare value, or nothing for an undefined slot. */
  function RenderSlot(v: Zval, i: nat): Bytes
    requires v.Arr? && i < |v.slots|
    decreases v, 0
  {
    var slot := v.slots[i];
    if slot.val.Undef? then []
    else if v.packed then Decimal(i) + "=" + Render(slot.val)
    else if slot.key.Key? then slot.key.bytes + "=" + Render(slot.val)
    else Render(slot.val)
  }

  /** The slots from `i` on that render to something. */
  function Entries(v: Zval, i: nat): (r: seq<Bytes>)
    requires v.Arr? && i <= |v.slots|
    ensures r != [] ==> r[0] != []
    decreases v, 1, |v.slots| - i
  {
    if i == |v.slots| then []
    else if RenderSlot(v, i) == [] then Entries(v, i + 1)
    else [RenderSlot(v, i)] + Entries(v, i + 1)
  }

  /** Values the printer knows, in arrays and under keys of a size it handles. */
  predicate Supported(v: Zval) {
    match v
    case Number(text) => '\0' !in text
    case Str(_) => true
    case Arr(packed, slots) =>
      && |slots| <= MAX_ARRAY_BUCKETS
      && forall i :: 0 <= i < |slots| && !slots[i].val.Undef? ==>
           Supported(slots[i].val) && (packed || KeyOk(slots[i].key))
    case _ => false
  }

  predicate KeyOk(key: Key) {
    key.NoKey? || (key.Key? && |key.bytes| < STR_SIZE && '\0' !in key.bytes)
  }

  // ---------- what the bounded printer prints ----------

  function Clip(text: Bytes, size: nat): (r: Bytes)
    requires size >= 1
    ensures |r| <= size - 1
  {
    if |text| < size then text else text[..size - 1]
  }

  /** The bounded output, `None` for an error. */
  function Printed(v: Zval, size: nat): (r: Option<Bytes>)
    requires size >= 1
    ensures r.Some? ==> |r.value| <= size - 1
    decreases v, 2
  {
    match v
    case Number(text) => Some(Clip(text, size))
    case Str(bytes) => Some(Clip(bytes, size))
    case Arr(_, _) => (
      match PrintedFrom(v, 0, size, [])
      case None => None
      case Some(out) => Some(DropComma(out)))
    case _ => None
  }

  function DropComma(out: Bytes): Bytes {
    if out != [] && out[|out| - 1] == ',' then out[..|out| - 1] else out
  }

  function PrintedSlot(v: Zval, i: nat, size: nat): (r: Option<Bytes>)
    requires v.Arr? && i < |v.slots| && size >= 1
    ensures r.Some? ==> |r.value| <= size - 1
    decreases v, 0
  {
    var slot := v.slots[i];
    if slot.val.Undef? then Some([])
    else if v.packed then
      var head := Decimal(i) + "=";
      if |head| >= size then Some([])
      else Behind(head, Printed(slot.val, size - |head|))
    else match slot.key
      case UnreadableKey => None
      case NoKey => Printed(slot.val, size)
      case Key(bytes) =>
        var head := Clip(bytes, STR_SIZE) + "=";
        if size > |head| + 1 then Behind(head, Printed(slot.val, size - |head|))
        else Printed(slot.val, size)  // the key is left out
  }

  function Behind(head: Bytes, tail: Option<Bytes>): Option<Bytes> {
    match tail
    case None => None
    case Some(t) => Some(head + t)
  }

  /** The slot loop, from slot `i` with `room` bytes left behind `out`. */
  function PrintedFrom(v: Zval, i: nat, room: nat, out: Bytes): (r: Option<Bytes>)
    requires v.Arr? && i <= Used(v) && room >= 1
    ensures r.Some? ==> |r.value| <= |out| + room - 1
    decreases v, 1, Used(v) - i
  {
    if i == Used(v) then Some(out)
    else match PrintedSlot(v, i, room)
      case None => None
      case Some(t) =>
        if t == [] then PrintedFrom(v, i + 1, room, out)
        else if room - |t| < 2 then Some(out + t)
        else PrintedFrom(v, i + 1, room - |t| - 1, out + t + ",")
  }

  // ---------- with enough room the two agree ----------

  /** Every entry followed by a comma. */
  function WithCommas(entries: seq<Bytes>): Bytes {
    if entries == [] then [] else entries[0] + "," + WithCommas(entries[1..])
  }

  lemma {:induction false} JoinIsWithoutLastComma(entries: seq<Bytes>)
    ensures entries != [] ==> WithCommas(entries) == Join(entries, ',') + ","
  {
    if |entries| > 1 {
      JoinIsWithoutLastComma(entries[1..]);
    } else if |entries| == 1 {
      assert entries[1..] == [];
    }
  }

  predicate Roomy(text: Bytes, size: nat) { size >= 1 && (text == [] || |text| + 2 <= size) }

  /** If the rendering and two spare bytes fit, the bounded printer prints exactly the rendering. */
  lemma {:induction false} PrintedIsRender(v: Zval, size: nat)
    requires Supported(v) && Roomy(Render(v), size)
    ensures Printed(v, size) == Some(Render(v))
    decreases v, 2
  {
    hide PrintedFrom;
    if v.Arr? {
      var entries := Entries(v, 0);
      JoinIsWithoutLastComma(entries);
      assert entries != [] ==> Render(v) == Join(entries, ',') != [];
      PrintedFromIsRender(v, 0, size, []);
      assert [] + WithCommas(entries) == WithCommas(entries);
      if entries != [] {
        assert DropComma(WithCommas(entries)) == Join(entries, ',');
      }
    }
  }

  lemma PrintedSlotIsRender(v: Zval, i: nat, size: nat)
    requires v.Arr? && Supported(v) && i < |v.slots| && Roomy(RenderSlot(v, i), size)
    ensures PrintedSlot(v, i, size) == Some(RenderSlot(v, i))
    decreases v, 0
  {
    hide Printed, Render;
    var slot := v.slots[i];
    if !slot.val.Undef? {
      if v.packed {
        var head := Decimal(i) + "=";
        PrintedIsRender(slot.val, size - |head|);
      } else if slot.key.Key? {
        var head := slot.key.bytes + "=";
        PrintedIsRender(slot.val, size - |head|);
      } else {
        PrintedIsRender(slot.val, size);
      }
    }
  }

  lemma {:induction false} PrintedFromIsRender(v: Zval, i: nat, room: nat, out: Bytes)
    requires v.Arr? && Supported(v) && i <= |v.slots| && |WithCommas(Entries(v, i))| + 1 <= room
    ensures PrintedFrom(v, i, room, out) == Some(out + WithCommas(Entries(v, i)))
    decreases v, 1, |v.slots| - i
  {
    hide PrintedSlot, RenderSlot;
    if i == |v.slots| {
      assert out + [] == out;
    } else {
      var t := RenderSlot(v, i);
      PrintedSlotIsRender(v, i, room);
      if t == [] {
        PrintedFromIsRender(v, i + 1, room, out);
      } else {
        var rest := Entries(v, i + 1);
        assert ([t] + rest)[1..] == rest;
        PrintedFromIsRender(v, i + 1, room - |t| - 1, out + t + ",");
        assert out + t + "," + WithCommas(rest) == out + (t + "," + WithCommas(rest));
      }
    }
  }

  // ---------- the printer itself ----------

  /** Keys and number texts that C string functions read to their end. */
  predicate NulFree(v: Zval) {
    match v
    case Number(text) => '\0' !in text
    case Arr(packed, slots) =>
      forall i :: 0 <= i < |slots| && !slots[i].val.Undef? ==>
        NulFree(slots[i].val) && (packed || (slots[i].key.Key? ==> '\0' !in slots[i].key.bytes))
    case _ => true
  }

  lemma SupportedIsNulFree(v: Zval)
    requires Supported(v)
    ensures NulFree(v)
  {
    if v.Arr? {
      forall i | 0 <= i < |v.slots| && !v.slots[i].val.Undef?
        ensures NulFree(v.slots[i].val)
      {
        SupportedIsNulFree(v.slots[i].val);
      }
    }
  }

  /** `snprintf(buf + pos, size, "%s", text)`, or the bounded copy of `sprint_zstring`. */
  method Put(text: Bytes, buf: array<char>, pos: nat, size: nat) returns (n: nat)
    requires 1 <= size && pos + size <= buf.Length
    modifies buf
    ensures forall i :: 0 <= i < buf.Length && !(pos <= i < pos + size) ==> buf[i] == old(buf[i])
    ensures n == |Clip(text, size)| && buf[pos..pos + n] == Clip(text, size) && buf[pos + n] == '\0'
  {
    var clipped := Clip(text, size);
    n := |clipped|;
    for i := 0 to n
      invariant forall k :: 0 <= k < buf.Length && !(pos <= k < pos + size) ==> buf[k] == old(buf[k])
      invariant forall k :: 0 <= k < i ==> buf[pos + k] == clipped[k]
    {
      buf[pos + i] := clipped[i];
    }
    buf[pos + n] := '\0';
  }

  method SprintZval(v: Zval, buf: array<char>, pos: nat, size: nat) returns (ok: bool, len: nat)
    requires 1 <= size && pos + size <= buf.Length
    modifies buf
    ensures forall i :: 0 <= i < buf.Length && !(pos <= i < pos + size) ==> buf[i] == old(buf[i])
    ensures ok ==> len <= size - 1
    ensures NulFree(v) ==> ok == Printed(v, size).Some?
    ensures NulFree(v) && ok ==> buf[pos..pos + len] == Printed(v, size).value
    decreases v, 3
  {
    len := 0;
    match v
    case Number(text) =>
      var n := Put(text, buf, pos, size);
      ghost var w := buf[pos..pos + size];
      assert w[n] == '\0' && w[..n] == buf[pos..pos + n];
      len := IndexOf(buf[pos..pos + size], '\0');  // strlen
      if '\0' !in text {
        assert forall i :: 0 <= i < n ==> w[i] == Clip(text, size)[i];
      }
      ok := true;
    case Str(bytes) =>
      len := Put(bytes, buf, pos, size);
      ok := true;
    case Arr(_, _) =>
      ok, len := SprintZarray(v, buf, pos, size);
    case _ =>
      ok := false;
  }

  /** `sprint_zarray`: the slots, then the last comma taken back. */
  method SprintZarray(v: Zval, buf: array<char>, pos: nat, size: nat) returns (ok: bool, len: nat)
    requires v.Arr? && 1 <= size && pos + size <= buf.Length
    modifies buf
    ensures forall i :: 0 <= i < buf.Length && !(pos <= i < pos + size) ==> buf[i] == old(buf[i])
    ensures ok ==> len <= size - 1
    ensures NulFree(v) ==> ok == Printed(v, size).Some?
    ensures NulFree(v) && ok ==> buf[pos..pos + len] == Printed(v, size).value
    decreases v, 2, 1
  {
    hide PrintedFrom;
    var out;
    ok, out := SprintSlots(v, buf, pos, size);
    len := out;
    if ok && out > 0 && buf[pos + out - 1] == ',' {
      len := out - 1;
    }
    if ok {
      ghost var text := buf[pos..pos + out];
      assert buf[pos..pos + len] == text[..len];
      assert out > 0 ==> text[out - 1] == buf[pos + out - 1];
    }
  }

  /** The slot loop: each slot is printed into what the earlier ones left of the window. */
  method SprintSlots(v: Zval, buf: array<char>, obuf: nat, size: nat) returns (ok: bool, n: nat)
    requires v.Arr? && 1 <= size && obuf + size <= buf.Length
    modifies buf
    ensures forall i :: 0 <= i < buf.Length && !(obuf <= i < obuf + size) ==> buf[i] == old(buf[i])
    ensures ok ==> n <= size - 1
    ensures NulFree(v) ==> ok == PrintedFrom(v, 0, size, []).Some?
    ensures NulFree(v) && ok ==> PrintedFrom(v, 0, size, []) == Some(buf[obuf..obuf + n])
    decreases v, 2, 0
  {
    hide PrintedSlot;
    var pos, room, i := obuf, size, 0;
    ghost var out: Bytes := [];
    while i < Used(v)
      invariant i <= Used(v) && obuf <= pos && 1 <= room && pos + room == obuf + size
      invariant forall k :: 0 <= k < buf.Length && !(obuf <= k < obuf + size) ==> buf[k] == old(buf[k])
      invariant NulFree(v) ==> buf[obuf..pos] == out
      invariant NulFree(v) ==> PrintedFrom(v, 0, size, []) == PrintedFrom(v, i, room, out)
    {
      var len;
      ok, len := SprintSlot(v, i, buf, pos, room);
      if !ok {
        return false, 0;
      }
      i := i + 1;
      assert NulFree(v) ==> buf[obuf..pos] == out;
      if len == 0 {
        continue;
      }
      ghost var t := buf[pos..pos + len];
      assert NulFree(v) ==> buf[obuf..pos + len] == out + t;
      out := out + t;
      pos, room := pos + len, room - len;
      if room < 2 {
        return true, pos - obuf;
      }
      buf[pos] := ',';
      assert NulFree(v) ==> buf[obuf..pos + 1] == out + ",";
      out := out + ",";
      pos, room := pos + 1, room - 1;
    }
    ok, n := true, pos - obuf;
  }

  method SprintSlot(v: Zval, i: nat, buf: array<char>, pos: nat, size: nat) returns (ok: bool, len: nat)
    requires v.Arr? && i < |v.slots| && 1 <= size && pos + size <= buf.Length
    modifies buf
    ensures forall k :: 0 <= k < buf.Length && !(pos <= k < pos + size) ==> buf[k] == old(buf[k])
    ensures ok ==> len <= size - 1
    ensures NulFree(v) ==> ok == PrintedSlot(v, i, size).Some?
    ensures NulFree(v) && ok ==> buf[pos..pos + len] == PrintedSlot(v, i, size).value
    decreases v, 1
  {
    hide PrintedSlot;
    if v.packed {
      ok, len := SprintPacked(v, i, buf, pos, size);
    } else {
      ok, len := SprintBucket(v, i, buf, pos, size);
    }
  }

  /** `sprint_zarray_packed`: an index that does not fit leaves the element out. */
  method SprintPacked(v: Zval, i: nat, buf: array<char>, pos: nat, size: nat) returns (ok: bool, len: nat)
    requires v.Arr? && v.packed && i < |v.slots| && 1 <= size && pos + size <= buf.Length
    modifies buf
    ensures forall k :: 0 <= k < buf.Length && !(pos <= k < pos + size) ==> buf[k] == old(buf[k])
    ensures ok ==> len <= size - 1
    ensures NulFree(v) ==> ok == PrintedSlot(v, i, size).Some?
    ensures NulFree(v) && ok ==> buf[pos..pos + len] == PrintedSlot(v, i, size).value
    decreases v, 0
  {
    hide Printed, Decimal;
    if v.slots[i].val.Undef? {
      return true, 0;
    }
    var head := Decimal(i) + "=";
    var _ := Put(head, buf, pos, size);
    if |head| >= size {
      return true, 0;
    }
    ok, len := SprintBehind(head, v.slots[i].val, buf, pos, size);
  }

  /** `sprint_zarray_bucket`: a key that does not fit is left out, its value is not. */
  method SprintBucket(v: Zval, i: nat, buf: array<char>, pos: nat, size: nat) returns (ok: bool, len: nat)
    requires v.Arr? && !v.packed && i < |v.slots| && 1 <= size && pos + size <= buf.Length
    modifies buf
    ensures forall k :: 0 <= k < buf.Length && !(pos <= k < pos + size) ==> buf[k] == old(buf[k])
    ensures ok ==> len <= size - 1
    ensures NulFree(v) ==> ok == PrintedSlot(v, i, size).Some?
    ensures NulFree(v) && ok ==> buf[pos..pos + len] == PrintedSlot(v, i, size).value
    decreases v, 0
  {
    hide Printed, IndexOf;
    var slot := v.slots[i];
    if slot.val.Undef? {
      return true, 0;
    }
    if slot.key.UnreadableKey? {
      return false, 0;
    }
    if slot.key.Key? {
      var key := Clip(slot.key.bytes, STR_SIZE);
      if size > |key| + 2 {
        CStringNul(key);
        var n := Put(CString(key) + "=", buf, pos, size);
        ok, len := SprintBehind(key + "=", slot.val, buf, pos, size);
        return;
      }
    }
    ok, len := SprintZval(slot.val, buf, pos, size);
  }

  /** The value goes right behind the `head` already in the window. */
  method SprintBehind(head: Bytes, v: Zval, buf: array<char>, pos: nat, size: nat) returns (ok: bool, len: nat)
    requires |head| < size && pos + size <= buf.Length
    modifies buf
    ensures forall k :: 0 <= k < buf.Length && !(pos <= k < pos + size) ==> buf[k] == old(buf[k])
    ensures ok ==> len <= size - 1
    ensures NulFree(v) ==> ok == Printed(v, size - |head|).Some?
    ensures NulFree(v) && ok && old(buf[pos..pos + |head|]) == head ==>
              buf[pos..pos + len] == head + Printed(v, size - |head|).value
    decreases v, 4
  {
    hide Printed;
    var n;
    ok, n := SprintZval(v, buf, pos + |head|, size - |head|);
    len := |head| + n;
    if ok {
      assert buf[pos..pos + len] == buf[pos..pos + |head|] + buf[pos + |head|..pos + len];
      assert forall k :: pos <= k < pos + |head| ==> buf[k] == old(buf[k]);
    }
  }

  /** A variable peek: the value printed into a buffer of its own. */
  method PeekValue(v: Zval) returns (r: Option<Bytes>)
    ensures r.Some? ==> |r.value| < STR_SIZE
    ensures Supported(v) && |Render(v)| + 2 <= STR_SIZE ==> r == Some(Render(v))
    ensures NulFree(v) ==> r == Printed(v, STR_SIZE)
  {
    hide Render, Printed;
    var buf := new char[STR_SIZE];
    var ok, len := SprintZval(v, buf, 0, STR_SIZE);
    r := if ok then Some(buf[..len]) else None;
    if Supported(v) && |Render(v)| + 2 <= STR_SIZE {
      SupportedIsNulFree(v);
      PrintedIsRender(v, STR_SIZE);
    }
  }
}
