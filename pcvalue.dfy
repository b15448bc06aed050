/** PC-value tables: a stream of (value delta, pc delta) pairs that describes a
    step function from the pc ranges of one function to values (stack depth,
    line number, stack-map index, ...).

    The source advances a slice through the table; here the slice is the part
    of the buffer `p` from position `at` on, so every step returns the position
    just past the bytes it consumed. */
module PcValues {
  import opened Machine
  import opened Codec

  /** One decoded step of a table, or the end marker. */
  datatype PcStep = End | Step(next: nat, valueDelta: int, pcDelta: int)

  /** `pc_next` on the slice of `p` from `at`: decodes one pair. A zero value
      delta ends the table, except on the first step. Faults where
      `readvarint` would index past the buffer. */
  function PcNext(p: seq<byte>, at: nat, first: bool): (r: Result<PcStep>)
    requires at <= |p|
    ensures r == Ok(End) <==>
      DecodeVarint(p, at).Some? && ZigZagDecode(DecodeVarint(p, at).value.value) == 0 && !first
    ensures r.Fault? <==> (DecodeVarint(p, at).None? ||
      (r != Ok(End) && DecodeVarint(p, at + DecodeVarint(p, at).value.read).None?))
    ensures r.Ok? && r.value.Step? ==> at < r.value.next <= |p|
    ensures r.Ok? && r.value.Step? ==>
      -0x8000_0000 <= r.value.valueDelta < 0x8000_0000 &&
      -0x8000_0000 <= r.value.pcDelta < 0x8000_0000
  {
    match DecodeVarint(p, at)
    case None => Fault
    case Some(v) =>
      var vdelta := ZigZagDecode(v.value);
      if vdelta == 0 && !first then Ok(End)
      else
        var q := at + v.read;
        match DecodeVarint(p, q)
        case None => Fault
        case Some(pd) => Ok(Step(q + pd.read, vdelta, Int32(pd.value)))
  }

  /** The writer side of one pair: zigzag value delta, then the pc delta as a uint32. */
  function EncodePair(valueDelta: int, pcDelta: int): (r: seq<byte>)
    requires -0x8000_0000 <= valueDelta < 0x8000_0000
  {
    EncodeVarint(ZigZagEncode(valueDelta)) + EncodeVarint(Wrap32(pcDelta))
  }

  /** `pc_next` in terms of the two varints it reads. */
  lemma PcNextOfDecodes(p: seq<byte>, at: nat, first: bool, v1: Varint, v2: Varint)
    requires at <= |p|
    requires DecodeVarint(p, at) == Some(v1)
    requires DecodeVarint(p, at + v1.read) == Some(v2)
    requires ZigZagDecode(v1.value) != 0 || first
    ensures PcNext(p, at, first) ==
      Ok(Step(at + v1.read + v2.read, ZigZagDecode(v1.value), Int32(v2.value)))
  {
  }

  /** `pc_next` undoes the zigzag and uint32 encodings of the pair it reads. */
  lemma PcNextPair(p: seq<byte>, at: nat, first: bool, valueDelta: int, pcDelta: int,
                   n1: nat, n2: nat)
    requires at <= |p|
    requires -0x8000_0000 <= valueDelta < 0x8000_0000
    requires -0x8000_0000 <= pcDelta < 0x8000_0000
    requires valueDelta != 0 || first
    requires DecodeVarint(p, at) == Some(Varint(n1, ZigZagEncode(valueDelta)))
    requires DecodeVarint(p, at + n1) == Some(Varint(n2, Wrap32(pcDelta)))
    ensures PcNext(p, at, first) == Ok(Step(at + n1 + n2, valueDelta, pcDelta))
  {
    ZigZagRoundTrip(valueDelta);
    Int32OfWrap(pcDelta);
    PcNextOfDecodes(p, at, first, Varint(n1, ZigZagEncode(valueDelta)),
                    Varint(n2, Wrap32(pcDelta)));
  }

  /** `pc_next` reads back an encoded pair and stops right after it, wherever
      the pair sits in the buffer and whatever follows it. */
  lemma PcNextEncodedPair(p: seq<byte>, at: nat, valueDelta: int, pcDelta: int, first: bool)
    requires -0x8000_0000 <= valueDelta < 0x8000_0000
    requires -0x8000_0000 <= pcDelta < 0x8000_0000
    requires valueDelta != 0 || first
    requires BytesAt(p, at, EncodePair(valueDelta, pcDelta))
    ensures PcNext(p, at, first) ==
      Ok(Step(at + |EncodePair(valueDelta, pcDelta)|, valueDelta, pcDelta))
  {
    var a := EncodeVarint(ZigZagEncode(valueDelta));
    var b := EncodeVarint(Wrap32(pcDelta));
    BytesAtAppend(p, at, a, b);
    DecodeAt(p, at, ZigZagEncode(valueDelta));
    DecodeAt(p, at + |a|, Wrap32(pcDelta));
    PcNextPair(p, at, first, valueDelta, pcDelta, |a|, |b|);
  }

  /** A zero byte after the first step is the end marker. */
  lemma PcNextEndMarker(p: seq<byte>, at: nat)
    requires at < |p| && p[at] == 0
    ensures PcNext(p, at, false) == Ok(End)
  {
    assert EncodeVarint(0) == [0];
    assert BytesAt(p, at, [0]) by {
      assert p[at + 0] == [0][0];
    }
    DecodeAt(p, at, 0);
  }

  lemma Int32OfWrap(x: int)
    requires -0x8000_0000 <= x < 0x8000_0000
    ensures Int32(Wrap32(x)) == x
  {
    if x < 0 {
      assert Wrap32(x) == x + 0x1_0000_0000;
    }
    Int32OfU32(Wrap32(x));
  }

  /** One decoded pair of a table, as signed deltas. */
  datatype Delta = Delta(value: int, pc: int)

  /** The pairs of the table at `at`, in order, up to its end marker. */
  function Steps(p: seq<byte>, at: nat, first: bool): (r: Result<seq<Delta>>)
    requires at <= |p|
    decreases |p| - at
  {
    match PcNext(p, at, first)
    case Fault => Fault
    case Ok(End) => Ok([])
    case Ok(Step(next, vd, pd)) =>
      match Steps(p, next, false)
      case Fault => Fault
      case Ok(tail) => Ok([Delta(vd, pd)] + tail)
  }

  predicate Int32Deltas(ds: seq<Delta>)
  {
    forall k | 0 <= k < |ds| ::
      -0x8000_0000 <= ds[k].value < 0x8000_0000 && -0x8000_0000 <= ds[k].pc < 0x8000_0000
  }

  /** The bytes of a table holding the given pairs, closed by the end marker. */
  function EncodeTable(ds: seq<Delta>): (r: seq<byte>)
    requires Int32Deltas(ds)
  {
    if ds == [] then [0]
    else EncodePair(ds[0].value, ds[0].pc) + EncodeTable(ds[1..])
  }

  /** A well-formed table decodes to the pairs it was written from, wherever it
      sits in the buffer. Only the first pair may have a zero value delta; a
      table that starts with the end marker is not one. */
  lemma {:induction false} StepsEncodeTable(p: seq<byte>, at: nat, ds: seq<Delta>, first: bool)
    requires Int32Deltas(ds)
    requires forall k | 0 <= k < |ds| :: ds[k].value != 0 || (k == 0 && first)
    requires ds != [] || !first
    requires BytesAt(p, at, EncodeTable(ds))
    ensures Steps(p, at, first) == Ok(ds)
    decreases |ds|
  {
    if ds == [] {
      assert p[at + 0] == EncodeTable(ds)[0];
      PcNextEndMarker(p, at);
    } else {
      var pair := EncodePair(ds[0].value, ds[0].pc);
      BytesAtAppend(p, at, pair, EncodeTable(ds[1..]));
      StepsEncodeTable(p, at + |pair|, ds[1..], false);
      StepsEncodedPair(p, at, ds, first);
    }
  }

  /** An encoded pair in front of a table that decodes to `ds[1..]` makes the
      whole decode to `ds`. */
  lemma StepsEncodedPair(p: seq<byte>, at: nat, ds: seq<Delta>, first: bool)
    requires ds != []
    requires -0x8000_0000 <= ds[0].value < 0x8000_0000
    requires -0x8000_0000 <= ds[0].pc < 0x8000_0000
    requires ds[0].value != 0 || first
    requires BytesAt(p, at, EncodePair(ds[0].value, ds[0].pc))
    requires at + |EncodePair(ds[0].value, ds[0].pc)| <= |p|
    requires Steps(p, at + |EncodePair(ds[0].value, ds[0].pc)|, false) == Ok(ds[1..])
    ensures Steps(p, at, first) == Ok(ds)
  {
    PcNextEncodedPair(p, at, ds[0].value, ds[0].pc, first);
    StepsStep(p, at, first, at + |EncodePair(ds[0].value, ds[0].pc)|, ds);
  }

  /** One step of `Steps`: the pair just read, then the pairs after it. */
  lemma StepsStep(p: seq<byte>, at: nat, first: bool, next: nat, ds: seq<Delta>)
    requires at <= |p| && next <= |p| && ds != []
    requires PcNext(p, at, first) == Ok(Step(next, ds[0].value, ds[0].pc))
    requires Steps(p, next, false) == Ok(ds[1..])
    ensures Steps(p, at, first) == Ok(ds)
  {
    assert [ds[0]] + ds[1..] == ds;
  }

  /** One row of the decoded table: pcs in [pcStart, pcEnd) have `value`. */
  datatype PcValue = PcValue(pcStart: u64, pcEnd: u64, value: int)

  /** The rows `getpcvaluefunc` builds from decoded pairs: each pair moves the
      pc by its pc delta (as a uintptr, so wrapping at 2^64) and adds its value
      delta to the running value. */
  function RowsOf(ds: seq<Delta>, pcStart: u64, d: int): (rows: seq<PcValue>)
    ensures |rows| == |ds|
  {
    if ds == [] then []
    else
      var pc := Wrap64(pcStart + ds[0].pc);
      [PcValue(pcStart, pc, d + ds[0].value)] + RowsOf(ds[1..], pc, d + ds[0].value)
  }

  /** The rows the loop of `getpcvaluefunc` appends from the state it has
      reached (table position, whether the next step is the first, the current
      pc and the running value): the rows of the pairs still to decode, or a
      fault when decoding them faults. */
  function Table(p: seq<byte>, at: nat, first: bool, pcStart: u64, d: int)
    : (r: Result<seq<PcValue>>)
    requires at <= |p|
  {
    match Steps(p, at, first)
    case Fault => Fault
    case Ok(ds) => Ok(RowsOf(ds, pcStart, d))
  }

  function Prepend(rows: seq<PcValue>, r: Result<seq<PcValue>>): (res: Result<seq<PcValue>>)
  {
    match r
    case Fault => Fault
    case Ok(tail) => Ok(rows + tail)
  }

  /** One step of the loop: the rows from a state are the row of its next pair
      followed by the rows from the state after it. */
  lemma TableStep(p: seq<byte>, at: nat, first: bool, pcStart: u64, d: int,
                  next: nat, vd: int, pd: int)
    requires at <= |p|
    requires PcNext(p, at, first) == Ok(Step(next, vd, pd))
    ensures next <= |p|
    ensures Table(p, at, first, pcStart, d) ==
      Prepend([PcValue(pcStart, Wrap64(pcStart + pd), d + vd)],
              Table(p, next, false, Wrap64(pcStart + pd), d + vd))
  {
    match Steps(p, next, false)
    case Fault =>
    case Ok(tail) =>
      assert ([Delta(vd, pd)] + tail)[1..] == tail;
  }

  lemma PrependTwice(a: seq<PcValue>, b: seq<PcValue>, r: Result<seq<PcValue>>)
    ensures Prepend(a, Prepend(b, r)) == Prepend(a + b, r)
  {
    if r.Ok? {
      assert a + (b + r.value) == (a + b) + r.value;
    }
  }

  lemma PrependNothing(r: Result<seq<PcValue>>)
    ensures Prepend([], r) == r
  {
    if r.Ok? {
      assert [] + r.value == r.value;
    }
  }

  /** `getpcvaluefunc`: walks the table that starts `tableOff` bytes into
      `pctab`, from the function's entry pc `text + entryOff` and a running
      value of -1. */
  method GetPcValueFunc(pctab: seq<byte>, tableOff: u32, text: u64, entryOff: u32)
    returns (r: Result<seq<PcValue>>)
    ensures tableOff > |pctab| ==> r.Fault?
    ensures tableOff <= |pctab| ==>
      r == Table(pctab, tableOff, true, Wrap64(text + entryOff), -1)
  {
    if tableOff > |pctab| {
      return Fault;
    }
    var at: nat := tableOff;
    var first := true;
    var pcstart: u64 := Wrap64(text + entryOff);
    var d := -1;
    var ret: seq<PcValue> := [];
    ghost var goal := Table(pctab, at, first, pcstart, d);
    PrependNothing(goal);
    while true
      invariant at <= |pctab|
      invariant Prepend(ret, Table(pctab, at, first, pcstart, d)) == goal
      decreases |pctab| - at
    {
      var step := PcNext(pctab, at, first);
      if step.Fault? {
        return Fault;
      }
      if step.value.End? {
        break;
      }
      var next, vd, pd := step.value.next, step.value.valueDelta, step.value.pcDelta;
      var pc := Wrap64(pcstart + pd);
      TableStep(pctab, at, first, pcstart, d, next, vd, pd);
      PrependTwice(ret, [PcValue(pcstart, pc, d + vd)], Table(pctab, next, false, pc, d + vd));
      first := false;
      d := d + vd;
      ret := ret + [PcValue(pcstart, pc, d)];
      at := next;
      pcstart := pc;
    }
    assert ret + [] == ret;
    return Ok(ret);
  }

  /** Sum of the value deltas. */
  function SumValues(ds: seq<Delta>): (r: int)
  {
    if ds == [] then 0 else ds[0].value + SumValues(ds[1..])
  }

  /** Row `k`: the first starts at the given pc, each starts where the one
      before it ends, each is as wide as its pc delta, and its value is the
      starting value plus the first k+1 value deltas. */
  lemma {:induction false} RowAt(ds: seq<Delta>, pcStart: u64, d: int, k: nat)
    requires k < |ds|
    ensures RowsOf(ds, pcStart, d)[k].pcStart ==
      if k == 0 then pcStart else RowsOf(ds, pcStart, d)[k - 1].pcEnd
    ensures RowsOf(ds, pcStart, d)[k].pcEnd ==
      Wrap64(RowsOf(ds, pcStart, d)[k].pcStart + ds[k].pc)
    ensures RowsOf(ds, pcStart, d)[k].value == d + SumValues(ds[..k + 1])
  {
    var pc := Wrap64(pcStart + ds[0].pc);
    var rows := RowsOf(ds, pcStart, d);
    var tail := RowsOf(ds[1..], pc, d + ds[0].value);
    assert rows == [PcValue(pcStart, pc, d + ds[0].value)] + tail;
    if k == 0 {
      assert ds[..1][1..] == [];
    } else {
      RowAt(ds[1..], pc, d + ds[0].value, k - 1);
      assert rows[k] == tail[k - 1];
      if k > 1 {
        assert rows[k - 1] == tail[k - 2];
      }
      assert ds[..k + 1][1..] == ds[1..][..k];
    }
  }

}
