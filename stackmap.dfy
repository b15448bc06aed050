/** Stack maps and GC bitmaps: the pointer bitmaps a function keeps for its
    locals and arguments, selected row by row through the stack-map index
    pc-value table, the GC bits of stack objects, and the text form in which
    the decoder prints a bitmap. */
module StackMaps {
  import opened Machine
  import opened Codec
  import opened PcValues
  import opened FuncCatalog

  // ---------------------------------------------------------------------------
  // Bitmap text

  /** The low `w` binary digits of `x`, most significant first. */
  function Digits(x: nat, w: nat): (s: seq<char>)
    ensures |s| == w
    ensures forall k | 0 <= k < w :: s[k] == '0' || s[k] == '1'
  {
    if w == 0 then [] else Digits(x / 2, w - 1) + [if x % 2 == 0 then '0' else '1']
  }

  /** The number a string of binary digits stands for. */
  function ParseDigits(s: seq<char>): (r: nat)
  {
    if s == [] then 0
    else 2 * ParseDigits(s[..|s| - 1]) + (if s[|s| - 1] == '1' then 1 else 0)
  }

  lemma {:induction false} DigitsRoundTrip(x: nat, w: nat)
    requires x < Pow2(w)
    ensures ParseDigits(Digits(x, w)) == x
  {
    if w > 0 {
      DigitsRoundTrip(x / 2, w - 1);
      var s := Digits(x, w);
      assert s[..|s| - 1] == Digits(x / 2, w - 1);
    }
  }

  /** `%8.8b` applied to a byte: exactly eight binary digits. */
  function Binary8(x: byte): (s: seq<char>)
    ensures |s| == 8
  {
    Digits(x, 8)
  }

  /** The eight digits of a byte read back as that byte, so distinct bytes
      print differently. */
  lemma Binary8RoundTrip(x: byte)
    ensures ParseDigits(Binary8(x)) == x
  {
    assert Pow2(8) == 0x100;
    DigitsRoundTrip(x, 8);
  }

  /** `strings.Join(parts, " ")`. */
  function Join(parts: seq<seq<char>>): (r: seq<char>)
  {
    if |parts| == 0 then []
    else if |parts| == 1 then parts[0]
    else Join(parts[..|parts| - 1]) + [' '] + parts[|parts| - 1]
  }

  /** The digit strings of the bytes, one per byte. */
  function ByteDigits(b: seq<byte>): (s: seq<seq<char>>)
    ensures |s| == |b|
  {
    seq(|b|, k requires 0 <= k < |b| => Binary8(b[k]))
  }

  /** The line `printbitmap` prints: two spaces, the bytes' digits separated by
      single spaces, and a newline. */
  function BitmapLine(b: seq<byte>): (r: seq<char>)
  {
    "  " + Join(ByteDigits(b)) + "\n"
  }

  /** Joining eight-character parts puts part `k` at 9k and a space after
      every part but the last. */
  lemma {:induction false} JoinLayout(parts: seq<seq<char>>)
    requires |parts| > 0
    requires forall k | 0 <= k < |parts| :: |parts[k]| == 8
    ensures |Join(parts)| == 9 * |parts| - 1
    ensures forall k | 0 <= k < |parts| :: Join(parts)[9 * k .. 9 * k + 8] == parts[k]
    ensures forall k | 0 <= k < |parts| - 1 :: Join(parts)[9 * k + 8] == ' '
  {
    if |parts| > 1 {
      var init := parts[..|parts| - 1];
      JoinLayout(init);
      var j := Join(parts);
      assert j == Join(init) + [' '] + parts[|parts| - 1];
      forall k | 0 <= k < |parts|
        ensures j[9 * k .. 9 * k + 8] == parts[k]
      {
        if k < |parts| - 1 {
          assert j[9 * k .. 9 * k + 8] == Join(init)[9 * k .. 9 * k + 8];
        } else {
          assert j[9 * k .. 9 * k + 8] == parts[|parts| - 1];
        }
      }
      forall k | 0 <= k < |parts| - 1
        ensures j[9 * k + 8] == ' '
      {
        if k < |parts| - 2 {
          assert j[9 * k + 8] == Join(init)[9 * k + 8];
        }
      }
    }
  }

  /** The printed line can be read back: byte `k` is the binary number at
      columns [2 + 9k, 10 + 9k), the bytes are separated by single spaces, and
      the line ends with a newline. */
  lemma BitmapLineLayout(b: seq<byte>)
    ensures |BitmapLine(b)| == (if b == [] then 3 else 9 * |b| + 2)
    ensures BitmapLine(b)[..2] == "  " && BitmapLine(b)[|BitmapLine(b)| - 1] == '\n'
    ensures forall k | 0 <= k < |b| ::
      ParseDigits(BitmapLine(b)[2 + 9 * k .. 10 + 9 * k]) == b[k]
    ensures forall k | 0 <= k < |b| - 1 :: BitmapLine(b)[10 + 9 * k] == ' '
  {
    var parts := ByteDigits(b);
    var line := BitmapLine(b);
    if b != [] {
      JoinLayout(parts);
      forall k | 0 <= k < |b|
        ensures ParseDigits(line[2 + 9 * k .. 10 + 9 * k]) == b[k]
      {
        assert line[2 + 9 * k .. 10 + 9 * k] == Join(parts)[9 * k .. 9 * k + 8] == parts[k];
        assert parts[k] == Binary8(b[k]);
        Binary8RoundTrip(b[k]);
      }
      forall k | 0 <= k < |b| - 1
        ensures line[10 + 9 * k] == ' '
      {
        assert line[10 + 9 * k] == Join(parts)[9 * k + 8];
      }
    }
  }

  /** `printbitmap`: formats every byte into a slot of a string array, then
      joins the slots. */
  method PrintBitmap(b: seq<byte>) returns (line: seq<char>)
    ensures line == BitmapLine(b)
  {
    var s := new seq<char>[|b|];
    for j := 0 to |b|
      invariant forall k | 0 <= k < j :: s[k] == Binary8(b[k])
    {
      s[j] := Binary8(b[j]);
    }
    assert s[..] == ByteDigits(b);
    line := "  " + Join(s[..]) + "\n";
  }

  // ---------------------------------------------------------------------------
  // Stack maps

  /** A `stackmap`: `n` bitmaps of `nbit` bits each, stored one row after the
      other from `bytedata` on. */
  datatype StackMap = StackMap(n: i32, nbit: i32, bytedata: seq<byte>)

  /** The row width in bytes, `(nbit + 7) / 8` in int32 arithmetic: the sum
      wraps and the division truncates toward zero. */
  function RowWidth(nbit: i32): (b: int)
    ensures -0x1000_0000 <= b < 0x1000_0000
  {
    TruncDiv(Int32(nbit + 7), 8)
  }

  /** For a bit count that does not overflow, a row is the fewest bytes that
      hold `nbit` bits; the width is zero exactly for the counts from -14 to
      0, and a count near the int32 limit wraps to a negative width. */
  lemma RowWidthSpec(nbit: i32)
    ensures 0 <= nbit < 0x7FFF_FFF9 ==>
      RowWidth(nbit) >= 0 && 8 * RowWidth(nbit) >= nbit && 8 * RowWidth(nbit) < nbit + 8
    ensures RowWidth(nbit) == 0 <==> -14 <= nbit <= 0
    ensures nbit >= 0x7FFF_FFF9 ==> RowWidth(nbit) < 0
  {
    if nbit + 7 >= 0x8000_0000 {
      assert Int32(nbit + 7) == nbit + 7 - 0x1_0000_0000;
    } else if nbit + 7 >= 0 {
      assert Int32(nbit + 7) == nbit + 7;
    } else {
      assert Int32(nbit + 7) == nbit + 7 + 0x1_0000_0000 - 0x1_0000_0000;
    }
  }

  /** The row guard of `printstackmap` as written: the value, a Go int, is
      compared with `n` only after truncation to int32. */
  predicate RowSelectedAsWritten(value: int, n: i32): (r: bool)
    ensures r ==> 0 <= value && (value < 0x8000_0000 ==> value < n)
  {
    !(value < 0 || Int32(value) >= n)
  }

  /** The guard the row read needs: the value names one of the `n` rows. */
  predicate RowSelected(value: int, n: i32)
  {
    0 <= value < n
  }

  /** The two guards agree on every value an int32 holds. */
  lemma RowGuardAgrees(value: int, n: i32)
    requires value < 0x8000_0000
    ensures RowSelectedAsWritten(value, n) <==> RowSelected(value, n)
  {
  }

  /** A value of 2^32 passes the truncating guard of a one-row map, whose row
      would start 2^32 rows past the only one there is. */
  lemma RowGuardTruncates()
    ensures RowSelectedAsWritten(0x1_0000_0000, 1)
    ensures !RowSelected(0x1_0000_0000, 1)
  {
  }

  /** A selected row of a map whose bytes hold its `n` rows lies inside them. */
  lemma RowInside(m: StackMap, b: int, value: int)
    requires b >= 0 && |m.bytedata| >= m.n * b
    requires RowSelected(value, m.n)
    ensures value * b + b <= |m.bytedata|
  {
    assert value + 1 <= m.n;
    assert (value + 1) * b <= m.n * b;
  }

  /** The bytes of row `value` when rows are `b` bytes wide. A negative width
      makes `unsafe.Slice` panic; a row past the map's bytes is a read the
      model does not follow. */
  function RowBits(m: StackMap, b: int, value: nat): (r: Result<seq<byte>>)
    ensures r.Ok? <==> b >= 0 && value * b + b <= |m.bytedata|
    ensures r.Ok? ==> |r.value| == b && BytesAt(m.bytedata, value * b, r.value)
  {
    if b < 0 || value * b + b > |m.bytedata| then Fault
    else Ok(m.bytedata[value * b .. value * b + b])
  }

  /** One printed row: a pc range and the bitmap that holds there. */
  datatype Row = Row(pcStart: u64, pcEnd: u64, bits: seq<byte>)

  /** The rows the loop of `printstackmap` prints for the pc-value entries
      `pcv`, with the corrected guard. */
  function SelectRows(m: StackMap, b: int, pcv: seq<PcValue>): (r: Result<seq<Row>>)
    ensures r.Ok? ==> |r.value| <= |pcv|
  {
    if pcv == [] then Ok([])
    else
      var v := pcv[|pcv| - 1];
      match SelectRows(m, b, pcv[..|pcv| - 1])
      case Fault => Fault
      case Ok(out) =>
        if !RowSelected(v.value, m.n) then Ok(out)
        else
          match RowBits(m, b, v.value)
          case Fault => Fault
          case Ok(bits) => Ok(out + [Row(v.pcStart, v.pcEnd, bits)])
  }

  /** The rows the loop of `printstackmap` prints with its guard as written,
      which truncates each value to int32 before comparing it with `n`. */
  function SelectRowsAsWritten(m: StackMap, b: int, pcv: seq<PcValue>): (r: Result<seq<Row>>)
    ensures r.Ok? ==> |r.value| <= |pcv|
  {
    if pcv == [] then Ok([])
    else
      var v := pcv[|pcv| - 1];
      match SelectRowsAsWritten(m, b, pcv[..|pcv| - 1])
      case Fault => Fault
      case Ok(out) =>
        if !RowSelectedAsWritten(v.value, m.n) then Ok(out)
        else
          match RowBits(m, b, v.value)
          case Fault => Fault
          case Ok(bits) => Ok(out + [Row(v.pcStart, v.pcEnd, bits)])
  }

  /** On a table whose values all fit an int32, the loop as written prints
      exactly the rows of the corrected one. */
  lemma {:induction false} SelectRowsGuardsAgree(m: StackMap, b: int, pcv: seq<PcValue>)
    requires forall k | 0 <= k < |pcv| :: pcv[k].value < 0x8000_0000
    ensures SelectRowsAsWritten(m, b, pcv) == SelectRows(m, b, pcv)
  {
    if pcv != [] {
      var init := pcv[..|pcv| - 1];
      assert forall k | 0 <= k < |init| :: init[k] == pcv[k];
      SelectRowsGuardsAgree(m, b, init);
      RowGuardAgrees(pcv[|pcv| - 1].value, m.n);
    }
  }

  /** The value 2^32 in a one-row map is printed by the loop as written (and
      its row read faults), while the corrected loop skips it. */
  lemma SelectRowsTruncates(bits: seq<byte>)
    requires |bits| == 1
    ensures SelectRowsAsWritten(StackMap(1, 8, bits), 1, [PcValue(0, 4, 0x1_0000_0000)]).Fault?
    ensures SelectRows(StackMap(1, 8, bits), 1, [PcValue(0, 4, 0x1_0000_0000)]) == Ok([])
  {
    var pcv := [PcValue(0, 4, 0x1_0000_0000)];
    assert pcv[..0] == [];
    RowGuardTruncates();
  }

  /** The entries whose value names a row of the map, in order. */
  function Kept(pcv: seq<PcValue>, n: i32): (kept: seq<PcValue>)
    ensures |kept| <= |pcv|
    ensures forall k | 0 <= k < |kept| :: RowSelected(kept[k].value, n)
  {
    if pcv == [] then []
    else
      var v := pcv[|pcv| - 1];
      Kept(pcv[..|pcv| - 1], n) + (if RowSelected(v.value, n) then [v] else [])
  }

  /** An entry is kept exactly when it is one of the entries and its value
      names a row. */
  lemma {:induction false} KeptSpec(pcv: seq<PcValue>, n: i32)
    ensures forall v :: v in Kept(pcv, n) <==> v in pcv && RowSelected(v.value, n)
  {
    if pcv != [] {
      var init := pcv[..|pcv| - 1];
      KeptSpec(init, n);
      assert pcv == init + [pcv[|pcv| - 1]];
    }
  }

  /** The printed rows are the kept entries, each with the bytes of the row
      its value names; printing stops exactly when one of those rows cannot be
      read. */
  lemma {:induction false} SelectRowsSpec(m: StackMap, b: int, pcv: seq<PcValue>)
    ensures SelectRows(m, b, pcv).Ok? <==>
      forall k | 0 <= k < |Kept(pcv, m.n)| :: RowBits(m, b, Kept(pcv, m.n)[k].value).Ok?
    ensures SelectRows(m, b, pcv).Ok? ==>
      |SelectRows(m, b, pcv).value| == |Kept(pcv, m.n)| &&
      forall k | 0 <= k < |Kept(pcv, m.n)| ::
        var v := Kept(pcv, m.n)[k];
        SelectRows(m, b, pcv).value[k] ==
          Row(v.pcStart, v.pcEnd, RowBits(m, b, v.value).value)
  {
    if pcv != [] {
      var init := pcv[..|pcv| - 1];
      var v := pcv[|pcv| - 1];
      SelectRowsSpec(m, b, init);
      var kept := Kept(pcv, m.n);
      var keptInit := Kept(init, m.n);
      assert forall k | 0 <= k < |keptInit| :: kept[k] == keptInit[k];
      if RowSelected(v.value, m.n) {
        assert kept == keptInit + [v];
        var r := SelectRows(m, b, pcv);
        if SelectRows(m, b, init).Ok? && RowBits(m, b, v.value).Ok? {
          var out := SelectRows(m, b, init).value;
          assert r.value == out + [Row(v.pcStart, v.pcEnd, RowBits(m, b, v.value).value)];
          forall k | 0 <= k < |kept|
            ensures r.value[k] == Row(kept[k].pcStart, kept[k].pcEnd, RowBits(m, b, kept[k].value).value)
          {
            if k < |keptInit| {
              assert r.value[k] == out[k];
            }
          }
        } else {
          assert r.Fault?;
          if SelectRows(m, b, init).Ok? {
            assert !RowBits(m, b, kept[|keptInit|].value).Ok?;
          }
        }
      } else {
        assert kept == keptInit;
        assert SelectRows(m, b, pcv) == SelectRows(m, b, init);
        assert SelectRows(m, b, pcv).Ok? <==>
          forall k | 0 <= k < |Kept(pcv, m.n)| :: RowBits(m, b, Kept(pcv, m.n)[k].value).Ok?;
        assert SelectRows(m, b, pcv).Ok? ==>
          |SelectRows(m, b, pcv).value| == |Kept(pcv, m.n)|;
      }
    }
  }

  /** With the corrected guard, a map whose bytes hold its `n` rows of a
      non-negative width prints every kept entry. */
  lemma StackMapRowsFit(m: StackMap, b: int, pcv: seq<PcValue>)
    requires b >= 0 && |m.bytedata| >= m.n * b
    ensures SelectRows(m, b, pcv).Ok?
  {
    SelectRowsSpec(m, b, pcv);
    KeptSpec(pcv, m.n);
    forall k | 0 <= k < |Kept(pcv, m.n)|
      ensures RowBits(m, b, Kept(pcv, m.n)[k].value).Ok?
    {
      var v := Kept(pcv, m.n)[k];
      assert v in Kept(pcv, m.n);
      RowInside(m, b, v.value);
    }
  }

  /** What `printstackmap` prints for function `f` and map `m`: nothing for a
      zero row width; otherwise the rows selected from the pc-value table whose
      offset is the record's pc-data word `slot` (the stack-map index table). */
  function StackMapRows(t: Tables, text: u64, f: Func, slot: nat, m: StackMap)
    : (r: Result<seq<Row>>)
  {
    var b := RowWidth(m.nbit);
    if b == 0 then Ok([])
    else if slot >= |f.trailer| || f.trailer[slot] > |t.pctab| then Fault
    else
      match Table(t.pctab, f.trailer[slot], true, Wrap64(text + f.entryoff), -1)
      case Fault => Fault
      case Ok(pcv) => SelectRows(m, b, pcv)
  }

  /** `printstackmap`, with the corrected row guard. */
  method PrintStackMap(t: Tables, text: u64, f: Func, slot: nat, m: StackMap)
    returns (r: Result<seq<Row>>)
    ensures r == StackMapRows(t, text, f, slot, m)
  {
    var b := RowWidth(m.nbit);
    if b == 0 {
      return Ok([]);
    }
    if slot >= |f.trailer| {
      return Fault;
    }
    var pcv := GetPcValueFunc(t.pctab, f.trailer[slot], text, f.entryoff);
    if pcv.Fault? {
      return Fault;
    }
    r := PrintRows(m, b, pcv.value);
  }

  /** The loop of `printstackmap` over the pc-value entries. */
  method PrintRows(m: StackMap, b: int, rows: seq<PcValue>) returns (r: Result<seq<Row>>)
    ensures r == SelectRows(m, b, rows)
  {
    var out: seq<Row> := [];
    var i := 0;
    while i < |rows|
      invariant i <= |rows|
      invariant SelectRows(m, b, rows[..i]) == Ok(out)
    {
      var v := rows[i];
      assert rows[..i + 1][..i] == rows[..i];
      if RowSelected(v.value, m.n) {
        if b < 0 || v.value * b + b > |m.bytedata| {
          assert SelectRows(m, b, rows[..i + 1]).Fault?;
          SelectRowsFaultStays(m, b, rows, i + 1);
          return Fault;
        }
        out := out + [Row(v.pcStart, v.pcEnd, m.bytedata[v.value * b .. v.value * b + b])];
      }
      i := i + 1;
    }
    assert rows[..i] == rows;
    return Ok(out);
  }

  /** Once a prefix of the entries fails, so do all the entries. */
  lemma {:induction false} SelectRowsFaultStays(m: StackMap, b: int, pcv: seq<PcValue>, i: nat)
    requires i <= |pcv|
    requires SelectRows(m, b, pcv[..i]).Fault?
    ensures SelectRows(m, b, pcv).Fault?
    decreases |pcv| - i
  {
    if i < |pcv| {
      assert pcv[..i + 1][..i] == pcv[..i];
      SelectRowsFaultStays(m, b, pcv, i + 1);
    } else {
      assert pcv[..i] == pcv;
    }
  }

  /** With a non-zero width the selected rows are, in order, one per entry
      whose value names a row: that entry's pc range and the `b` bytes at
      `value * b`. Selection stops exactly when one of those rows does not lie
      inside the map's bytes, or when there is one and the width is negative. */
  lemma SelectRowsLayout(m: StackMap, b: int, pcv: seq<PcValue>)
    requires b != 0
    ensures SelectRows(m, b, pcv).Ok? <==>
      forall k | 0 <= k < |Kept(pcv, m.n)| ::
        b > 0 && Kept(pcv, m.n)[k].value * b + b <= |m.bytedata|
    ensures SelectRows(m, b, pcv).Ok? ==>
      var kept := Kept(pcv, m.n);
      |SelectRows(m, b, pcv).value| == |kept| &&
      forall k | 0 <= k < |kept| ::
        SelectRows(m, b, pcv).value[k] == Row(kept[k].pcStart, kept[k].pcEnd,
                       m.bytedata[kept[k].value * b .. kept[k].value * b + b])
  {
    SelectRowsSpec(m, b, pcv);
  }

  /** `printstackmap` prints nothing for a zero width, and otherwise the rows
      `SelectRowsLayout` describes for the entries of the decoded table. */
  lemma StackMapRowsSpec(t: Tables, text: u64, f: Func, slot: nat, m: StackMap,
                         pcv: seq<PcValue>)
    requires slot < |f.trailer| && f.trailer[slot] <= |t.pctab|
    requires Table(t.pctab, f.trailer[slot], true, Wrap64(text + f.entryoff), -1) == Ok(pcv)
    ensures RowWidth(m.nbit) == 0 ==> StackMapRows(t, text, f, slot, m) == Ok([])
    ensures RowWidth(m.nbit) != 0 ==>
      StackMapRows(t, text, f, slot, m) == SelectRows(m, RowWidth(m.nbit), pcv)
  {
  }

  // ---------------------------------------------------------------------------
  // Stack objects

  /** The fields of a `stackObjectRecord` the decoder reads: the length of the
      object's pointer-holding prefix and where its GC bits sit in `rodata`. */
  datatype StackObject = StackObject(ptrdata: i32, gcdataoff: u32)

  /** Bytes of GC bits `printStackObj` prints: `ptrdata / 8` pointer words,
      one bit each, rounded up to whole bytes; the first division truncates.
      The bytes hold one bit for every whole pointer word and no spare byte. */
  function GcBitsLen(ptrdata: nat): (len: nat)
    ensures 8 * len >= ptrdata / 8 && 8 * len < ptrdata / 8 + 8
  {
    (ptrdata / 8 + 7) / 8
  }

  /** For a word-aligned pointer prefix the length is a round-up of
      ptrdata / 64, the same as rounding up twice. */
  lemma GcBitsLenSpec(ptrdata: nat)
    ensures ptrdata % 8 == 0 ==> GcBitsLen(ptrdata) == (ptrdata + 63) / 64
  {
  }

  /** The GC bits `printStackObj` prints: none when the object holds no
      pointers; otherwise the `GcBitsLen` bytes at `gcdataoff`. Indexing at an
      offset past `rodata` panics; bytes past its end are a read the model does
      not follow. */
  function StackObjGcBits(rodata: seq<byte>, s: StackObject): (r: Result<Option<seq<byte>>>)
    ensures s.ptrdata <= 0 ==> r == Ok(None)
    ensures r.Ok? && r.value.Some? ==>
      |r.value.value| == GcBitsLen(s.ptrdata) && BytesAt(rodata, s.gcdataoff, r.value.value)
    ensures s.ptrdata > 0 ==>
      (r.Ok? <==> s.gcdataoff < |rodata| && s.gcdataoff + GcBitsLen(s.ptrdata) <= |rodata|)
  {
    if s.ptrdata <= 0 then Ok(None)
    else if s.gcdataoff >= |rodata| then Fault
    else
      var l := GcBitsLen(s.ptrdata);
      if s.gcdataoff + l > |rodata| then Fault
      else Ok(Some(rodata[s.gcdataoff .. s.gcdataoff + l]))
  }

  /** The GC-bits part of `printStackObj`: `gcbits:` and the bitmap line, or
      nothing for a pointer-free object. */
  method PrintStackObj(rodata: seq<byte>, s: StackObject) returns (r: Result<seq<char>>)
    ensures r.Ok? <==> StackObjGcBits(rodata, s).Ok?
    ensures r.Ok? && StackObjGcBits(rodata, s).value.None? ==> r.value == []
    ensures r.Ok? && StackObjGcBits(rodata, s).value.Some? ==>
      r.value == "gcbits:" + BitmapLine(StackObjGcBits(rodata, s).value.value)
  {
    if s.ptrdata <= 0 {
      return Ok([]);
    }
    if s.gcdataoff >= |rodata| {
      return Fault;
    }
    var l := s.ptrdata / 8;
    l := (l + 7) / 8;
    if s.gcdataoff + l > |rodata| {
      return Fault;
    }
    var line := PrintBitmap(rodata[s.gcdataoff .. s.gcdataoff + l]);
    return Ok("gcbits:" + line);
  }
}
