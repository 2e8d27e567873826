/**
  CRC-16/CCITT-FALSE, the checksum that protects every 64-byte frame:
  generator polynomial 0x1021 (ITU-T V.41), initial register 0xFFFF,
  no input or output reflection, no final XOR. Defined bit by bit here
  rather than through a lookup table.
 */
module Crc16 {
  import opened Common

  const Poly: bv16 := 0x1021
  const Init: bv16 := 0xFFFF

  /** One shift of the register: shift left, folding in the polynomial when the top bit falls out. */
  function Shift(c: bv16): bv16 {
    if c & 0x8000 != 0 then (c << 1) ^ Poly else c << 1
  }

  /** `n` successive shifts of the register. */
  function ShiftN(c: bv16, n: nat): bv16
    decreases n
  {
    if n == 0 then c else ShiftN(Shift(c), n - 1)
  }

  /** Feeds one byte, most significant bit first, into the register `c`. */
  function Step(c: bv16, b: byte): bv16 {
    ShiftN(c ^ ((b as bv16) << 8), 8)
  }

  /** The register after feeding `data`, in order, starting from `c`. */
  function Update(c: bv16, data: seq<byte>): bv16
    decreases |data|
  {
    if |data| == 0 then c else Update(Step(c, data[0]), data[1..])
  }

  /** The CRC-16/CCITT-FALSE checksum of `data`. */
  function Checksum(data: seq<byte>): bv16 {
    Update(Init, data)
  }

  /** Feeding a concatenation is feeding its parts one after the other. */
  lemma {:induction false} UpdateAppend(c: bv16, a: seq<byte>, b: seq<byte>)
    ensures Update(c, a + b) == Update(Update(c, a), b)
    decreases |a|
  {
    if |a| == 0 {
      assert a + b == b;
    } else {
      assert (a + b)[1..] == a[1..] + b;
      UpdateAppend(Step(c, a[0]), a[1..], b);
    }
  }

  /**
    Undoes one `Shift`: bit 0 of a shifted register tells whether the
    polynomial was folded in (it has bit 0 set, a plain shift leaves it clear).
   */
  function Unshift(s: bv16): bv16 {
    if s & 1 != 0 then ((s ^ Poly) >> 1) | 0x8000 else s >> 1
  }

  lemma UnshiftTopSet(c: bv16)
    requires c & 0x8000 != 0
    ensures Unshift(Shift(c)) == c
  {
  }

  lemma UnshiftTopClear(c: bv16)
    requires c & 0x8000 == 0
    ensures Unshift(Shift(c)) == c
  {
  }

  /** A single shift loses no information. */
  lemma ShiftInjective(x: bv16, y: bv16)
    requires Shift(x) == Shift(y)
    ensures x == y
  {
    if x & 0x8000 != 0 { UnshiftTopSet(x); } else { UnshiftTopClear(x); }
    if y & 0x8000 != 0 { UnshiftTopSet(y); } else { UnshiftTopClear(y); }
  }

  lemma {:induction false} ShiftNInjective(x: bv16, y: bv16, n: nat)
    requires ShiftN(x, n) == ShiftN(y, n)
    ensures x == y
    decreases n
  {
    if n > 0 {
      ShiftNInjective(Shift(x), Shift(y), n - 1);
      ShiftInjective(x, y);
    }
  }

  /** Two different registers fed the same byte stay different. */
  lemma StepInjectiveInRegister(c1: bv16, c2: bv16, b: byte)
    requires Step(c1, b) == Step(c2, b)
    ensures c1 == c2
  {
    ShiftNInjective(c1 ^ ((b as bv16) << 8), c2 ^ ((b as bv16) << 8), 8);
  }

  /** One register fed two different bytes ends up different. */
  lemma StepInjectiveInByte(c: bv16, x: byte, y: byte)
    requires Step(c, x) == Step(c, y)
    ensures x == y
  {
    ShiftNInjective(c ^ ((x as bv16) << 8), c ^ ((y as bv16) << 8), 8);
  }

  /** Two different registers fed the same data stay different. */
  lemma {:induction false} UpdateInjectiveInRegister(c1: bv16, c2: bv16, data: seq<byte>)
    requires Update(c1, data) == Update(c2, data)
    ensures c1 == c2
    decreases |data|
  {
    if |data| > 0 {
      UpdateInjectiveInRegister(Step(c1, data[0]), Step(c2, data[0]), data[1..]);
      StepInjectiveInRegister(c1, c2, data[0]);
    }
  }

  /**
    Any single-byte change of the data changes the checksum: the CRC
    detects every error confined to one byte.
   */
  lemma SingleByteChangeDetected(data: seq<byte>, i: nat, v: byte)
    requires i < |data| && v != data[i]
    ensures Checksum(data[i := v]) != Checksum(data)
  {
    var d' := data[i := v];
    assert data == data[..i] + ([data[i]] + data[i + 1..]);
    assert d' == data[..i] + ([v] + data[i + 1..]);
    UpdateAppend(Init, data[..i], [data[i]] + data[i + 1..]);
    UpdateAppend(Init, data[..i], [v] + data[i + 1..]);
    var c := Update(Init, data[..i]);
    UpdateAppend(c, [data[i]], data[i + 1..]);
    UpdateAppend(c, [v], data[i + 1..]);
    if Checksum(d') == Checksum(data) {
      UpdateInjectiveInRegister(Update(c, [v]), Update(c, [data[i]]), data[i + 1..]);
      assert Update(c, [v]) == Step(c, v);
      assert Update(c, [data[i]]) == Step(c, data[i]);
      StepInjectiveInByte(c, v, data[i]);
    }
  }

  /** The catalogue check value of CRC-16/CCITT-FALSE: "123456789" gives 0x29B1. */
  lemma CheckValue()
    ensures Checksum([0x31, 0x32, 0x33, 0x34, 0x35, 0x36, 0x37, 0x38, 0x39]) == 0x29B1
  {
    var s := [0x31, 0x32, 0x33, 0x34, 0x35, 0x36, 0x37, 0x38, 0x39];
    assert Step(0xFFFF, 0x31) == 0xC782;
    assert Step(0xC782, 0x32) == 0x3DBA;
    assert Step(0x3DBA, 0x33) == 0x5BCE;
    assert Step(0x5BCE, 0x34) == 0x5349;
    assert Step(0x5349, 0x35) == 0x4560;
    assert Step(0x4560, 0x36) == 0x2EF4;
    assert Step(0x2EF4, 0x37) == 0x7718;
    assert Step(0x7718, 0x38) == 0xA12B;
    assert Step(0xA12B, 0x39) == 0x29B1;
    assert Update(0x29B1, s[9..]) == 0x29B1;
  }
}
