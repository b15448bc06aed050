/** The variable-length codec of the pcln tables: unsigned LEB-style varints
    decoded into a uint32 (`readvarint`) and the zigzag signed encoding
    (`zigzag_decode`). The encoders are the writer side, used here as the
    inverse the decoders are proved against. */
module Codec {
  import opened Machine

  /** A decoded varint: the number of bytes it occupied and its uint32 value. */
  datatype Varint = Varint(read: nat, value: u32)

  /** The index of the first byte of `p` at or after `from` whose continuation
      bit (0x80) is clear, if there is one. */
  function TerminatorFrom(p: seq<byte>, from: nat): (r: Option<nat>)
    ensures r.Some? ==> from <= r.value < |p| && p[r.value] < 0x80
    decreases |p| - from
  {
    if from >= |p| then None
    else if p[from] < 0x80 then Some(from)
    else TerminatorFrom(p, from + 1)
  }

  /** The search finds the first byte below 0x80, and finds none only when no
      byte from `from` on is below 0x80. */
  lemma {:induction false} TerminatorFromFirst(p: seq<byte>, from: nat)
    ensures TerminatorFrom(p, from).Some? ==>
      forall k | from <= k < TerminatorFrom(p, from).value :: p[k] >= 0x80
    ensures TerminatorFrom(p, from).None? ==> forall k | from <= k < |p| :: p[k] >= 0x80
    decreases |p| - from
  {
    if from < |p| && p[from] >= 0x80 {
      TerminatorFromFirst(p, from + 1);
    }
  }

  /** A byte below 0x80 preceded only by bytes with the continuation bit set is
      the terminator. */
  lemma {:induction false} TerminatorAt(p: seq<byte>, from: nat, i: nat)
    requires from <= i < |p| && p[i] < 0x80
    requires forall k | from <= k < i :: p[k] >= 0x80
    ensures TerminatorFrom(p, from) == Some(i)
    decreases i - from
  {
    if from < i {
      TerminatorAt(p, from + 1, i);
    }
  }

  /** The shift applied to group `k`: `shift` grows by 7 per byte as a uint32
      and is masked with `& 31` before use. */
  function GroupShift(k: nat): (s: nat)
    ensures s < 32
  {
    Wrap32(7 * k) % 32
  }

  /** The first five groups are shifted by 0, 7, 14, 21 and 28 bits. */
  lemma GroupShiftSmall(k: nat)
    requires k <= 4
    ensures GroupShift(k) == 7 * k
  {
    Wrap32Small(7 * k);
  }

  /** The accumulator of `readvarint` after the first `n` bytes of the slice that
      starts at `at`: the OR of every 7-bit group shifted to its position,
      truncated to 32 bits. */
  function VarintValue(p: seq<byte>, at: nat, n: nat): (r: u32)
    requires at + n <= |p|
  {
    if n == 0 then 0
    else Or32(VarintValue(p, at, n - 1), Shl32(p[at + n - 1] % 0x80, GroupShift(n - 1)))
  }

  /** `readvarint` applied to the slice of `p` starting at `at`: None where the
      source indexes past the buffer because no terminating byte exists. */
  function DecodeVarint(p: seq<byte>, at: nat): (r: Option<Varint>)
    requires at <= |p|
    ensures r.Some? <==> TerminatorFrom(p, at).Some?
    ensures r.Some? ==> r.value.read == TerminatorFrom(p, at).value - at + 1
    ensures r.Some? ==> 1 <= r.value.read && at + r.value.read <= |p|
  {
    match TerminatorFrom(p, at)
    case None => None
    case Some(i) => Some(Varint(i - at + 1, VarintValue(p, at, i - at + 1)))
  }

  /** `readvarint`: consumes bytes up to and including the first one whose high
      bit is clear, OR-ing each low 7 bits in at shift `7k & 31`. The source
      indexes past the buffer when no such byte exists, hence the precondition. */
  method ReadVarint(p: seq<byte>) returns (read: nat, val: u32)
    requires TerminatorFrom(p, 0).Some?
    ensures 1 <= read <= |p| && p[read - 1] < 0x80
    ensures forall k | 0 <= k < read - 1 :: p[k] >= 0x80
    ensures val == VarintValue(p, 0, read)
    ensures DecodeVarint(p, 0) == Some(Varint(read, val))
  {
    var v: u32, shift: u32, n: nat := 0, 0, 0;
    ghost var last := TerminatorFrom(p, 0).value;
    TerminatorFromFirst(p, 0);
    while true
      invariant n <= last
      invariant v == VarintValue(p, 0, n)
      invariant shift == Wrap32(7 * n)
      decreases last - n
    {
      var b := p[n];
      VarintStep(p, n, v, shift);
      n := n + 1;
      v := Or32(v, Shl32(b % 0x80, shift % 32));
      if b < 0x80 {
        assert n - 1 == last;
        break;
      }
      shift := Wrap32(shift + 7);
    }
    return n, v;
  }

  /** One iteration of `readvarint` adds byte `n` to the accumulator and moves the
      shift on by 7. */
  lemma VarintStep(p: seq<byte>, n: nat, v: u32, shift: u32)
    requires n < |p| && v == VarintValue(p, 0, n) && shift == Wrap32(7 * n)
    ensures Or32(v, Shl32(p[n] % 0x80, shift % 32)) == VarintValue(p, 0, n + 1)
    ensures Wrap32(shift + 7) == Wrap32(7 * (n + 1))
  {
    WrapAdd32(7 * n, 7);
  }

  /** Decoding the slice that starts after `pre` is decoding the rest on its own. */
  lemma {:induction false} VarintValueShift(pre: seq<byte>, q: seq<byte>, n: nat)
    requires n <= |q|
    ensures VarintValue(pre + q, |pre|, n) == VarintValue(q, 0, n)
  {
    if n > 0 {
      VarintValueShift(pre, q, n - 1);
      assert (pre + q)[|pre| + n - 1] == q[n - 1];
    }
  }

  lemma {:induction false} TerminatorShift(pre: seq<byte>, q: seq<byte>, from: nat)
    ensures TerminatorFrom(q, from).None? ==> TerminatorFrom(pre + q, |pre| + from).None?
    ensures TerminatorFrom(q, from).Some? ==>
      TerminatorFrom(pre + q, |pre| + from) == Some(|pre| + TerminatorFrom(q, from).value)
    decreases |q| - from
  {
    if from < |q| {
      assert (pre + q)[|pre| + from] == q[from];
      TerminatorShift(pre, q, from + 1);
    }
  }

  lemma DecodeShift(pre: seq<byte>, q: seq<byte>)
    ensures DecodeVarint(pre + q, |pre|) == DecodeVarint(q, 0)
  {
    TerminatorShift(pre, q, 0);
    var t := TerminatorFrom(q, 0);
    if t.Some? {
      var n := t.value + 1;
      VarintValueShift(pre, q, n);
      assert DecodeVarint(q, 0) == Some(Varint(n, VarintValue(q, 0, n)));
      assert DecodeVarint(pre + q, |pre|) == Some(Varint(n, VarintValue(pre + q, |pre|, n)));
    }
  }

  /** The writer side: 7 bits per byte, least-significant group first, the high
      bit set on every byte but the last. */
  function EncodeVarint(v: u32): (r: seq<byte>)
    ensures 1 <= |r|
    decreases v
  {
    if v < 0x80 then [v] else [v % 0x80 + 0x80] + EncodeVarint(v / 0x80)
  }

  lemma Pow2Groups()
    ensures Pow2(0) == 1 && Pow2(7) == 0x80 && Pow2(14) == 0x4000
    ensures Pow2(21) == 0x20_0000 && Pow2(28) == 0x1000_0000
  {
    assert Pow2(7) == 0x80;
    Pow2Add(7, 7);
    Pow2Add(14, 7);
    Pow2Add(21, 7);
  }

  /** Adding group `k`, shifted by `s`, to a prefix whose value lies below bit `s`:
      the groups do not overlap, so the OR is a sum. */
  lemma {:induction false} ValueStep(p: seq<byte>, k: nat, s: nat, below: nat)
    requires k < |p| && GroupShift(k) == s
    requires VarintValue(p, 0, k) == below
    requires below < Pow2(s)
    requires (p[k] % 0x80) * Pow2(s) < 0x1_0000_0000
    ensures VarintValue(p, 0, k + 1) == below + (p[k] % 0x80) * Pow2(s)
  {
    Pow2Of32();
    Pow2Monotonic(s, 32);
    var g := p[k] % 0x80;
    var shifted := g * Pow2(s);
    assert VarintValue(p, 0, k + 1) == Or32(below, Shl32(g, s));
    Shl32Exact(g, s);
    OrDisjoint(below, g, s, 32);
  }

  /** The encoder's bytes for each length, written out. */
  lemma EncodeShape(v: u32)
    ensures v < 0x80 ==> EncodeVarint(v) == [v]
    ensures 0x80 <= v < 0x4000 ==> EncodeVarint(v) == [v % 0x80 + 0x80, v / 0x80]
    ensures 0x4000 <= v < 0x20_0000 ==>
      EncodeVarint(v) == [v % 0x80 + 0x80, (v / 0x80) % 0x80 + 0x80, v / 0x4000]
    ensures 0x20_0000 <= v < 0x1000_0000 ==>
      EncodeVarint(v) == [v % 0x80 + 0x80, (v / 0x80) % 0x80 + 0x80,
                          (v / 0x4000) % 0x80 + 0x80, v / 0x20_0000]
    ensures 0x1000_0000 <= v ==>
      EncodeVarint(v) == [v % 0x80 + 0x80, (v / 0x80) % 0x80 + 0x80,
                          (v / 0x4000) % 0x80 + 0x80, (v / 0x20_0000) % 0x80 + 0x80,
                          v / 0x1000_0000]
  {
    if 0x1000_0000 <= v {
      EncodeFive(v);
    } else if 0x20_0000 <= v {
      EncodeFour(v);
    } else if 0x4000 <= v {
      EncodeThree(v);
    } else if 0x80 <= v {
      EncodeUnfold(v);
    }
  }

  lemma EncodeThree(v: u32)
    requires 0x4000 <= v < 0x20_0000
    ensures EncodeVarint(v) == [v % 0x80 + 0x80, (v / 0x80) % 0x80 + 0x80, v / 0x4000]
  {
    EncodeUnfold(v);
    EncodeUnfold(v / 0x80);
    assert v / 0x80 / 0x80 == v / 0x4000;
  }

  lemma EncodeFour(v: u32)
    requires 0x20_0000 <= v < 0x1000_0000
    ensures EncodeVarint(v) == [v % 0x80 + 0x80, (v / 0x80) % 0x80 + 0x80,
                                (v / 0x4000) % 0x80 + 0x80, v / 0x20_0000]
  {
    EncodeUnfold(v);
    EncodeThree(v / 0x80);
    assert v / 0x80 / 0x80 == v / 0x4000;
    assert v / 0x80 / 0x4000 == v / 0x20_0000;
  }

  lemma EncodeFive(v: u32)
    requires 0x1000_0000 <= v
    ensures EncodeVarint(v) == [v % 0x80 + 0x80, (v / 0x80) % 0x80 + 0x80,
                                (v / 0x4000) % 0x80 + 0x80, (v / 0x20_0000) % 0x80 + 0x80,
                                v / 0x1000_0000]
  {
    EncodeUnfold(v);
    EncodeFour(v / 0x80);
    assert v / 0x80 / 0x80 == v / 0x4000;
    assert v / 0x80 / 0x4000 == v / 0x20_0000;
    assert v / 0x80 / 0x20_0000 == v / 0x1000_0000;
  }

  lemma EncodeUnfold(v: u32)
    requires 0x80 <= v
    ensures EncodeVarint(v) == [v % 0x80 + 0x80] + EncodeVarint(v / 0x80)
    ensures v / 0x80 < 0x80 ==> EncodeVarint(v / 0x80) == [v / 0x80]
  {
  }

  /** Round trip: decoding the encoder's bytes, wherever they sit and whatever
      follows them, gives back the value and consumes exactly the encoded bytes. */
  lemma DecodeEncode(pre: seq<byte>, v: u32, rest: seq<byte>)
    ensures DecodeVarint(pre + EncodeVarint(v) + rest, |pre|) ==
      Some(Varint(|EncodeVarint(v)|, v))
  {
    var q := EncodeVarint(v) + rest;
    DecodeEncodeAtStart(v, rest);
    assert pre + EncodeVarint(v) + rest == pre + q;
    DecodeShift(pre, q);
  }

  /** The bytes `b` sit in `p` from position `at` on. */
  predicate BytesAt(p: seq<byte>, at: nat, b: seq<byte>)
  {
    at + |b| <= |p| && forall i | 0 <= i < |b| :: p[at + i] == b[i]
  }

  lemma BytesAtSplit(p: seq<byte>, at: nat, b: seq<byte>)
    requires BytesAt(p, at, b)
    ensures p == p[..at] + b + p[at + |b|..]
  {
    var q := p[..at] + b + p[at + |b|..];
    assert |q| == |p|;
    forall i | 0 <= i < |p|
      ensures p[i] == q[i]
    {
      if at <= i < at + |b| {
        assert p[at + (i - at)] == b[i - at];
      }
    }
  }

  /** Bytes placed one after another can be looked at one part at a time. */
  lemma BytesAtAppend(p: seq<byte>, at: nat, a: seq<byte>, b: seq<byte>)
    requires BytesAt(p, at, a + b)
    ensures BytesAt(p, at, a) && BytesAt(p, at + |a|, b)
  {
    forall i | 0 <= i < |a|
      ensures p[at + i] == a[i]
    {
      assert (a + b)[i] == a[i];
    }
    forall i | 0 <= i < |b|
      ensures p[at + |a| + i] == b[i]
    {
      assert p[at + (|a| + i)] == (a + b)[|a| + i];
    }
  }

  /** The round trip for a buffer that holds the encoded bytes at `at`. */
  lemma DecodeAt(p: seq<byte>, at: nat, v: u32)
    requires BytesAt(p, at, EncodeVarint(v))
    ensures DecodeVarint(p, at) == Some(Varint(|EncodeVarint(v)|, v))
  {
    BytesAtSplit(p, at, EncodeVarint(v));
    DecodeEncode(p[..at], v, p[at + |EncodeVarint(v)|..]);
  }

  lemma DecodeEncodeAtStart(v: u32, rest: seq<byte>)
    ensures DecodeVarint(EncodeVarint(v) + rest, 0) == Some(Varint(|EncodeVarint(v)|, v))
  {
    var e := EncodeVarint(v);
    var q := e + rest;
    EncodeShape(v);
    var L := |e|;
    assert q[L - 1] < 0x80;
    assert forall k | 0 <= k < L - 1 :: q[k] >= 0x80;
    TerminatorAt(q, 0, L - 1);
    EncodedValue(v, q);
  }

  /** Each step of the decoder adds the next 7-bit group of `v` at its shift. */
  lemma StepFirst(v: u32, q: seq<byte>)
    requires 1 <= |q| && q[0] % 0x80 == v % 0x80
    ensures VarintValue(q, 0, 1) == v % 0x80
  {
    Pow2Groups();
    GroupShiftSmall(0);
    ValueStep(q, 0, 0, 0);
  }

  lemma StepSecond(v: u32, q: seq<byte>)
    requires 2 <= |q| && VarintValue(q, 0, 1) == v % 0x80
    requires q[1] % 0x80 == (v / 0x80) % 0x80
    ensures VarintValue(q, 0, 2) == v % 0x4000
  {
    Pow2Groups();
    var g := q[1] % 0x80;
    assert g * Pow2(7) == g * 0x80;
    GroupShiftSmall(1);
    ValueStep(q, 1, 7, v % 0x80);
    assert VarintValue(q, 0, 2) == v % 0x80 + ((v / 0x80) % 0x80) * 0x80;
    SplitGroup1(v);
  }

  lemma StepThird(v: u32, q: seq<byte>)
    requires 3 <= |q| && VarintValue(q, 0, 2) == v % 0x4000
    requires q[2] % 0x80 == (v / 0x4000) % 0x80
    ensures VarintValue(q, 0, 3) == v % 0x20_0000
  {
    Pow2Groups();
    var g := q[2] % 0x80;
    assert g * Pow2(14) == g * 0x4000;
    GroupShiftSmall(2);
    ValueStep(q, 2, 14, v % 0x4000);
    assert VarintValue(q, 0, 3) == v % 0x4000 + ((v / 0x4000) % 0x80) * 0x4000;
    SplitGroup2(v);
  }

  lemma StepFourth(v: u32, q: seq<byte>)
    requires 4 <= |q| && VarintValue(q, 0, 3) == v % 0x20_0000
    requires q[3] % 0x80 == (v / 0x20_0000) % 0x80
    ensures VarintValue(q, 0, 4) == v % 0x1000_0000
  {
    Pow2Groups();
    var g := q[3] % 0x80;
    assert g * Pow2(21) == g * 0x20_0000;
    GroupShiftSmall(3);
    ValueStep(q, 3, 21, v % 0x20_0000);
    assert VarintValue(q, 0, 4) == v % 0x20_0000 + ((v / 0x20_0000) % 0x80) * 0x20_0000;
    SplitGroup3(v);
  }

  lemma StepFifth(v: u32, q: seq<byte>)
    requires 5 <= |q| && VarintValue(q, 0, 4) == v % 0x1000_0000
    requires q[4] % 0x80 == v / 0x1000_0000
    ensures VarintValue(q, 0, 5) == v
  {
    Pow2Groups();
    var g := q[4] % 0x80;
    assert g * Pow2(28) == g * 0x1000_0000;
    GroupShiftSmall(4);
    ValueStep(q, 4, 28, v % 0x1000_0000);
    assert v == (v / 0x1000_0000) * 0x1000_0000 + v % 0x1000_0000;
  }

  /** The groups of the encoder's bytes, OR-ed at their shifts, rebuild the value. */
  lemma EncodedValue(v: u32, q: seq<byte>)
    requires EncodeVarint(v) <= q
    ensures VarintValue(q, 0, |EncodeVarint(v)|) == v
  {
    if v < 0x80 {
      assert EncodeVarint(v) == [v];
      StepFirst(v, q);
      ModBelow(v, 0x80);
    } else if v < 0x4000 {
      GroupsTwo(v, q);
      ValueOfTwo(v, q);
      ModBelow(v, 0x4000);
    } else if v < 0x20_0000 {
      GroupsThree(v, q);
      ValueOfThree(v, q);
      ModBelow(v, 0x20_0000);
    } else if v < 0x1000_0000 {
      GroupsFour(v, q);
      ValueOfFour(v, q);
      ModBelow(v, 0x1000_0000);
    } else {
      GroupsFive(v, q);
      ValueOfFive(v, q);
    }
  }

  /** Setting the continuation bit leaves the low 7 bits alone. */
  lemma LowGroup(x: nat)
    ensures (x % 0x80 + 0x80) % 0x80 == x % 0x80
  {
  }

  lemma ModBelow(v: nat, b: nat)
    requires v < b
    ensures v % b == v
  {
  }

  lemma ValueOfTwo(v: u32, q: seq<byte>)
    requires |q| >= 2
    requires q[0] % 0x80 == v % 0x80
    requires q[1] % 0x80 == (v / 0x80) % 0x80
    ensures VarintValue(q, 0, 2) == v % 0x4000
  {
    StepFirst(v, q);
    StepSecond(v, q);
  }

  lemma ValueOfThree(v: u32, q: seq<byte>)
    requires |q| >= 3
    requires q[0] % 0x80 == v % 0x80
    requires q[1] % 0x80 == (v / 0x80) % 0x80
    requires q[2] % 0x80 == (v / 0x4000) % 0x80
    ensures VarintValue(q, 0, 3) == v % 0x20_0000
  {
    ValueOfTwo(v, q);
    StepThird(v, q);
  }

  lemma ValueOfFour(v: u32, q: seq<byte>)
    requires |q| >= 4
    requires q[0] % 0x80 == v % 0x80
    requires q[1] % 0x80 == (v / 0x80) % 0x80
    requires q[2] % 0x80 == (v / 0x4000) % 0x80
    requires q[3] % 0x80 == (v / 0x20_0000) % 0x80
    ensures VarintValue(q, 0, 4) == v % 0x1000_0000
  {
    ValueOfThree(v, q);
    StepFourth(v, q);
  }

  lemma ValueOfFive(v: u32, q: seq<byte>)
    requires |q| >= 5
    requires q[0] % 0x80 == v % 0x80
    requires q[1] % 0x80 == (v / 0x80) % 0x80
    requires q[2] % 0x80 == (v / 0x4000) % 0x80
    requires q[3] % 0x80 == (v / 0x20_0000) % 0x80
    requires q[4] % 0x80 == v / 0x1000_0000
    ensures VarintValue(q, 0, 5) == v
  {
    ValueOfFour(v, q);
    StepFifth(v, q);
  }

  /** The 7-bit group carried by each byte of an encoding, by length. */
  lemma GroupsTwo(v: u32, q: seq<byte>)
    requires EncodeVarint(v) <= q
    requires 0x80 <= v < 0x4000
    ensures |EncodeVarint(v)| == 2 && |q| >= 2
    ensures q[0] % 0x80 == v % 0x80
    ensures q[1] % 0x80 == (v / 0x80) % 0x80
  {
    EncodeUnfold(v);
    LowGroup(v);
  }

  lemma GroupsThree(v: u32, q: seq<byte>)
    requires EncodeVarint(v) <= q
    requires 0x4000 <= v < 0x20_0000
    ensures |EncodeVarint(v)| == 3 && |q| >= 3
    ensures q[0] % 0x80 == v % 0x80
    ensures q[1] % 0x80 == (v / 0x80) % 0x80
    ensures q[2] % 0x80 == (v / 0x4000) % 0x80
  {
    EncodeThree(v);
    LowGroup(v);
    LowGroup(v / 0x80);
  }

  lemma GroupsFour(v: u32, q: seq<byte>)
    requires EncodeVarint(v) <= q
    requires 0x20_0000 <= v < 0x1000_0000
    ensures |EncodeVarint(v)| == 4 && |q| >= 4
    ensures q[0] % 0x80 == v % 0x80
    ensures q[1] % 0x80 == (v / 0x80) % 0x80
    ensures q[2] % 0x80 == (v / 0x4000) % 0x80
    ensures q[3] % 0x80 == (v / 0x20_0000) % 0x80
  {
    EncodeFour(v);
    LowGroup(v);
    LowGroup(v / 0x80);
    LowGroup(v / 0x4000);
  }

  lemma GroupsFive(v: u32, q: seq<byte>)
    requires EncodeVarint(v) <= q
    requires 0x1000_0000 <= v
    ensures |EncodeVarint(v)| == 5 && |q| >= 5
    ensures q[0] % 0x80 == v % 0x80
    ensures q[1] % 0x80 == (v / 0x80) % 0x80
    ensures q[2] % 0x80 == (v / 0x4000) % 0x80
    ensures q[3] % 0x80 == (v / 0x20_0000) % 0x80
    ensures q[4] % 0x80 == v / 0x1000_0000
  {
    EncodeFive(v);
    LowGroup(v);
    LowGroup(v / 0x80);
    LowGroup(v / 0x4000);
    LowGroup(v / 0x20_0000);
    ModBelow(v / 0x1000_0000, 0x80);
  }

  /** The low bits below 2^7k plus the next 7-bit group are the bits below 2^(7k+7). */
  lemma SplitGroup1(v: nat)
    ensures v % 0x80 + ((v / 0x80) % 0x80) * 0x80 == v % 0x4000
  {
    var r := v % 0x4000;
    assert v == (v / 0x4000) * 0x4000 + r;
    assert v / 0x80 == (v / 0x4000) * 0x80 + r / 0x80;
  }

  lemma SplitGroup2(v: nat)
    ensures v % 0x4000 + ((v / 0x4000) % 0x80) * 0x4000 == v % 0x20_0000
  {
    var r := v % 0x20_0000;
    assert v == (v / 0x20_0000) * 0x20_0000 + r;
    assert v / 0x4000 == (v / 0x20_0000) * 0x80 + r / 0x4000;
  }

  lemma SplitGroup3(v: nat)
    ensures v % 0x20_0000 + ((v / 0x20_0000) % 0x80) * 0x20_0000 == v % 0x1000_0000
  {
    var r := v % 0x1000_0000;
    assert v == (v / 0x1000_0000) * 0x1000_0000 + r;
    assert v / 0x20_0000 == (v / 0x1000_0000) * 0x80 + r / 0x20_0000;
  }

  /** `zigzag_decode` as the source writes it: `int32(-(d & 1) ^ (d >> 1))`
      on a uint32. */
  function ZigZagDecodeBits(d: u32): (r: int)
    ensures -0x8000_0000 <= r < 0x8000_0000
  {
    Int32(Xor32(Wrap32(-(d % 2)), d / 2))
  }

  /** The zigzag decoding by value: even codes stand for d/2, odd codes for
      -(d+1)/2. The decoders use this form; `ZigZagDecodeValue` shows it equals
      the source's bit expression on every uint32. */
  function ZigZagDecode(d: u32): (r: int)
    ensures -0x8000_0000 <= r < 0x8000_0000
  {
    if d % 2 == 0 then d / 2 else -(d / 2) - 1
  }

  /** The writer side of the zigzag encoding, for int32 values. */
  function ZigZagEncode(v: int): (d: u32)
    requires -0x8000_0000 <= v < 0x8000_0000
  {
    if v >= 0 then 2 * v else -2 * v - 1
  }

  /** The source's bit expression computes the zigzag decoding: 0, 1, 2, 3, ...
      decode to 0, -1, 1, -2, ... */
  lemma ZigZagDecodeValue(d: u32)
    ensures ZigZagDecodeBits(d) == ZigZagDecode(d)
    ensures ZigZagDecode(d) == if d % 2 == 0 then d / 2 else -((d + 1) / 2)
  {
    Pow2Of32();
    var h := d / 2;
    assert h < 0x8000_0000;
    if d % 2 == 0 {
      assert Wrap32(-(d % 2)) == 0;
      XorZeroLeft(h, 32);
      assert Xor32(0, h) == h;
      Int32OfU32(h);
    } else {
      assert Wrap32(-(d % 2)) == 0xFFFF_FFFF;
      XorOnesLeft(h, 32);
      assert Xor32(0xFFFF_FFFF, h) == 0xFFFF_FFFF - h;
      Int32OfU32(0xFFFF_FFFF - h);
      assert (d + 1) / 2 == h + 1;
    }
  }

  lemma HalveOdd(x: nat)
    ensures (2 * x + 1) % 2 == 1 && (2 * x + 2) / 2 == x + 1
  {
  }

  /** Decoding inverts encoding on every int32. */
  lemma ZigZagRoundTrip(v: int)
    requires -0x8000_0000 <= v < 0x8000_0000
    ensures ZigZagDecode(ZigZagEncode(v)) == v
  {
    var d := ZigZagEncode(v);
    if v >= 0 {
      assert d == 2 * v;
      Halve(v);
    } else {
      assert d == 2 * (-v - 1) + 1;
      HalveOdd(-v - 1);
    }
  }

  /** Every uint32 code is the encoding of the value it decodes to. */
  lemma ZigZagEncodeDecode(d: u32)
    ensures ZigZagEncode(ZigZagDecode(d)) == d
  {
    var h := d / 2;
    assert d == 2 * h + d % 2;
  }
}
