/**
 * Packing of eight pixel decisions into one frame byte, most significant bit
 * first, and the single-bit set and clear operations the conversion loop uses.
 */
module BitPacking {

  /** `bitIndex`: the bit position that the `bit`-th pixel of a byte is written to. */
  const BitIndex: seq<int> := [7, 6, 5, 4, 3, 2, 1, 0]

  /** Pixel `bit` of a byte goes to bit position `7 - bit`: most significant bit first. */
  lemma BitIndexMsbFirst(bit: nat)
    requires bit < 8
    ensures |BitIndex| == 8 && BitIndex[bit] == 7 - bit
  {
  }

  /** The mask `1 << k` for bit position `k`, spelled out as a table. */
  function Mask(k: nat): bv8
    requires k < 8
  {
    if k == 0 then 0x01 else if k == 1 then 0x02 else if k == 2 then 0x04
    else if k == 3 then 0x08 else if k == 4 then 0x10 else if k == 5 then 0x20
    else if k == 6 then 0x40 else 0x80
  }

  /** The table is the shift `1 << k` of the source. */
  lemma MaskIsShift(k: nat)
    requires k < 8
    ensures Mask(k) == 1 << k
  {
    if k == 0 { } else if k == 1 { } else if k == 2 { } else if k == 3 { }
    else if k == 4 { } else if k == 5 { } else if k == 6 { } else { }
  }

  /** Is bit `k` (0 = least significant) of `b` set? */
  predicate TestBit(b: bv8, k: nat)
    requires k < 8
  {
    b & Mask(k) != 0
  }

  /** `frame[byte] |= 1 << k` (the C operand is wider, but only the low 8 bits reach the byte). */
  function SetBit(b: bv8, k: nat): bv8
    requires k < 8
  {
    b | Mask(k)
  }

  /** `frame[byte] &= ~(1 << k)` (likewise, only the low 8 bits of the mask matter). */
  function ClearBit(b: bv8, k: nat): bv8
    requires k < 8
  {
    b & !Mask(k)
  }

  /** Bit `k` of `b` set when `on`, cleared otherwise: one pass of the `bit` loop. */
  function SetOrClear(b: bv8, k: nat, on: bool): bv8
    requires k < 8
  {
    if on then SetBit(b, k) else ClearBit(b, k)
  }

  /** A set or clear gives bit `k` the new value and leaves the other seven bits as they were. */
  lemma SetOrClearBit(b: bv8, k: nat, on: bool, j: nat)
    requires k < 8 && j < 8
    ensures TestBit(SetOrClear(b, k, on), j) == if j == k then on else TestBit(b, j)
  {
    if k == 0 { } else if k == 1 { } else if k == 2 { } else if k == 3 { }
    else if k == 4 { } else if k == 5 { } else if k == 6 { } else { }
  }

  /** Eight decisions packed into one byte, the first one in the most significant bit. */
  function PackMsbFirst(bits: seq<bool>): bv8
    requires |bits| == 8
  {
    (if bits[0] then 0x80 else 0) | (if bits[1] then 0x40 else 0) |
    (if bits[2] then 0x20 else 0) | (if bits[3] then 0x10 else 0) |
    (if bits[4] then 0x08 else 0) | (if bits[5] then 0x04 else 0) |
    (if bits[6] then 0x02 else 0) | (if bits[7] then 0x01 else 0)
  }

  /** Decision `k` of a packed byte sits at bit position `7 - k`. */
  lemma PackMsbFirstBit(bits: seq<bool>, k: nat)
    requires |bits| == 8 && k < 8
    ensures TestBit(PackMsbFirst(bits), 7 - k) == bits[k]
  {
    var b := PackMsbFirst(bits);
    if k == 0 { } else if k == 1 { } else if k == 2 { } else if k == 3 { }
    else if k == 4 { } else if k == 5 { } else if k == 6 { } else { }
  }

  /** An all-clear row of decisions packs to 0x00 and an all-set one to 0xFF. */
  lemma PackUniform(bits: seq<bool>)
    requires |bits| == 8
    ensures (forall k :: 0 <= k < 8 ==> !bits[k]) ==> PackMsbFirst(bits) == 0x00
    ensures (forall k :: 0 <= k < 8 ==> bits[k]) ==> PackMsbFirst(bits) == 0xFF
  {
  }

  /** Two bytes that agree on all eight bits are equal. */
  lemma BitExtensionality(a: bv8, b: bv8)
    requires forall k :: 0 <= k < 8 ==> TestBit(a, k) == TestBit(b, k)
    ensures a == b
  {
    assert TestBit(a, 0) == TestBit(b, 0) && TestBit(a, 1) == TestBit(b, 1);
    assert TestBit(a, 2) == TestBit(b, 2) && TestBit(a, 3) == TestBit(b, 3);
    assert TestBit(a, 4) == TestBit(b, 4) && TestBit(a, 5) == TestBit(b, 5);
    assert TestBit(a, 6) == TestBit(b, 6) && TestBit(a, 7) == TestBit(b, 7);
  }

  /** The byte after the first `n` passes of the `bit` loop, starting from `orig`. */
  function Overlay(orig: bv8, bits: seq<bool>, n: nat): bv8
    requires |bits| == 8 && n <= 8
  {
    if n == 0 then orig
    else SetOrClear(Overlay(orig, bits, n - 1), BitIndex[n - 1], bits[n - 1])
  }

  /** Pass `n` of the `bit` loop writes decision `n - 1` to bit `8 - n` and no other bit. */
  lemma OverlayStep(orig: bv8, bits: seq<bool>, n: nat, k: nat)
    requires |bits| == 8 && 0 < n <= 8 && k < 8
    ensures TestBit(Overlay(orig, bits, n), 7 - k)
            == if k == n - 1 then bits[n - 1] else TestBit(Overlay(orig, bits, n - 1), 7 - k)
  {
    BitIndexMsbFirst(n - 1);
    SetOrClearBit(Overlay(orig, bits, n - 1), 8 - n, bits[n - 1], 7 - k);
  }

  /**
   * After `n` passes, the first `n` decisions occupy bit positions 7, 6, ...
   * and every lower bit still holds its original value.
   */
  lemma {:induction false} OverlayBit(orig: bv8, bits: seq<bool>, n: nat, k: nat)
    requires |bits| == 8 && n <= 8 && k < 8
    ensures TestBit(Overlay(orig, bits, n), 7 - k) == if k < n then bits[k] else TestBit(orig, 7 - k)
  {
    if n > 0 {
      OverlayBit(orig, bits, n - 1, k);
      OverlayStep(orig, bits, n, k);
    }
  }

  /**
   * After all eight passes the byte is the packed decisions, whatever it held
   * before: no bit of the previous frame survives.
   */
  lemma OverlayComplete(orig: bv8, bits: seq<bool>)
    requires |bits| == 8
    ensures Overlay(orig, bits, 8) == PackMsbFirst(bits)
  {
    forall j | 0 <= j < 8
      ensures TestBit(Overlay(orig, bits, 8), j) == TestBit(PackMsbFirst(bits), j)
    {
      OverlayBit(orig, bits, 8, 7 - j);
      PackMsbFirstBit(bits, 7 - j);
    }
    BitExtensionality(Overlay(orig, bits, 8), PackMsbFirst(bits));
  }
}
