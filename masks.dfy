/** Prefix-length masks of the option parser. An IPv4 prefix length p gives
    the mask `~0 << (32 - p)`; an IPv6 prefix length p fills the mask's four
    32-bit words (`s6_addr32`): the p / 32 words wholly inside the prefix
    become all ones and, when p is not a multiple of 32, the word the prefix
    ends in becomes `~0 << (p % 32)`. A word is read most significant bit
    first, so "the k leading bits" are bits 31 down to 32 - k. */
module PrefixMasks {

  import opened AclTypes

  /** 2^32, the number of values of a 32-bit word. */
  const WordSpace: nat := 0x1_0000_0000

  function Pow2(n: nat): (r: nat)
    ensures r > 0
  {
    if n == 0 then 1 else 2 * Pow2(n - 1)
  }

  lemma Pow2Of32()
    ensures Pow2(8) == 256 && Pow2(24) == 0x100_0000 && Pow2(32) == WordSpace
  {
    assert Pow2(8) == 256;
    assert Pow2(16) == 0x1_0000 by {
      assert Pow2(12) == 0x1000;
    }
    assert Pow2(24) == 0x100_0000 by {
      assert Pow2(20) == 0x10_0000;
    }
    assert Pow2(28) == 0x1000_0000;
  }

  lemma {:induction false} Pow2Monotonic(a: nat, b: nat)
    requires a <= b
    ensures Pow2(a) <= Pow2(b)
    decreases b
  {
    if a < b {
      Pow2Monotonic(a, b - 1);
    }
  }

  /** `x << n` on an unsigned 32-bit word: one doubling per position, each
      dropping the bit carried out of bit 31. The parser shifts the signed
      `int` `~0`, which C leaves undefined for any count n >= 1; `Shl` of
      `AllOnes32` is the two's-complement result, taken as given. */
  function Shl(x: Word32, n: nat): Word32
  {
    if n == 0 then x else (Shl(x, n - 1) * 2) % WordSpace
  }

  /** The value of a bit string, most significant bit first. */
  function BitsValue(bs: seq<bool>): nat
  {
    if |bs| == 0 then 0 else BitsValue(bs[..|bs| - 1]) * 2 + (if bs[|bs| - 1] then 1 else 0)
  }

  /** `width` bits of which exactly the first k are set. */
  function PrefixBits(k: nat, width: nat): (bs: seq<bool>)
    ensures |bs| == width && forall i :: 0 <= i < width ==> (bs[i] <==> i < k)
  {
    seq(width, i => i < k)
  }

  lemma {:induction false} PrefixBitsValue(k: nat, width: nat)
    requires k <= width
    ensures BitsValue(PrefixBits(k, width)) == Pow2(width) - Pow2(width - k)
  {
    if width > 0 {
      var bs := PrefixBits(k, width);
      if k == width {
        assert bs[..width - 1] == PrefixBits(width - 1, width - 1);
        PrefixBitsValue(width - 1, width - 1);
      } else {
        assert bs[..width - 1] == PrefixBits(k, width - 1);
        PrefixBitsValue(k, width - 1);
      }
    }
  }

  /** The 32-bit mask whose k leading bits are set and whose other bits are
      clear: the mask of a prefix of k bits. */
  function PrefixWord(k: nat): (r: Word32)
    requires k <= 32
    ensures r == BitsValue(PrefixBits(k, 32))
  {
    PrefixBitsValue(k, 32);
    Pow2Of32();
    WordSpace - Pow2(32 - k)
  }

  /** Shifting all ones left by n clears the n low bits and keeps the rest. */
  lemma {:induction false} ShlAllOnes(n: nat)
    requires n <= 32
    ensures Shl(AllOnes32, n) == WordSpace - Pow2(n)
  {
    if n > 0 {
      ShlAllOnes(n - 1);
      Pow2Of32();
      Pow2Monotonic(n, 32);
      var p := Pow2(n);
      var d := Shl(AllOnes32, n - 1) * 2;
      assert d == WordSpace + (WordSpace - p);
      DropCarry(d, WordSpace - p);
    }
  }

  /** A doubled word that overflowed loses exactly the carried-out bit. */
  lemma DropCarry(d: int, low: int)
    requires 0 <= low < WordSpace && d == WordSpace + low
    ensures d % WordSpace == low
  {
  }

  /** `~0 << n` for a shift count n <= 32 is the mask of a prefix of 32 - n bits. */
  lemma ShiftedOnesIsPrefix(n: nat)
    requires n <= 32
    ensures Shl(AllOnes32, n) == PrefixWord(32 - n)
  {
    ShlAllOnes(n);
  }

  // ---------------------------------------------------------------------
  // IPv4 prefix lengths.

  /** The IPv4 mask as the parser computes it, `~0 << (32 - p)` for p <= 32.
      For p = 0 the shift count is the full word width, which C leaves
      undefined; the result is then whatever the host gives, `fullShift`. */
  function Ip4MaskAsWritten(p: nat, fullShift: Word32): (r: Word32)
    requires p <= 32
    ensures 1 <= p ==> r == PrefixWord(p)
  {
    if p == 0 then fullShift
    else
      ShiftedOnesIsPrefix(32 - p);
      Shl(AllOnes32, 32 - p)
  }

  /** A zero-length prefix on a host that takes the shift count modulo 32
      (as x86 does) gives the all-ones mask, an exact match on the address,
      where a zero-length prefix means "any address", the mask 0. The host's
      behaviour is not derived here: it enters only through the value passed
      as `fullShift`, the result of `~0 << 32`, which such a host computes as
      `~0 << 0`, i.e. `Shl(AllOnes32, 0)`. */
  lemma Ip4ZeroPrefixAsWritten()
    ensures Ip4MaskAsWritten(0, Shl(AllOnes32, 0)) == AllOnes32
    ensures PrefixWord(0) == 0
  {
    Pow2Of32();
  }

  // ---------------------------------------------------------------------
  // IPv6 prefix lengths.

  /** The mask words a prefix of p <= 128 bits writes: the words wholly
      inside the prefix become all ones, the word the prefix ends inside (if
      any) becomes `partial`, and the words past the prefix keep their value. */
  function CoverPrefix(mask: Ip6Mask, p: nat, partial: Word32): (r: Ip6Mask)
    requires p <= 128
    ensures forall w :: 0 <= w < 4 ==> BitsInWord(p, w) == 32 ==> r[w] == AllOnes32
    ensures forall w :: 0 <= w < 4 ==> 0 < BitsInWord(p, w) < 32 ==> r[w] == partial
    ensures forall w :: 0 <= w < 4 ==> BitsInWord(p, w) == 0 ==> r[w] == mask[w]
  {
    seq<Word32>(4, w requires 0 <= w < 4 =>
      if w < p / 32 then AllOnes32
      else if w == p / 32 && p % 32 != 0 then partial
      else mask[w])
  }

  /** The loop of the IPv6 prefix options, in place on the four mask words:
      all ones into each whole word of the prefix, then `partial` into the
      word the prefix ends inside. */
  method FillPrefix(mask: array<Word32>, p: nat, partial: Word32)
    requires mask.Length == 4 && p <= 128
    modifies mask
    ensures mask[..] == CoverPrefix(old(mask[..]), p, partial)
  {
    var i := 0;
    while i < p / 32
      invariant 0 <= i <= p / 32
      invariant forall w :: 0 <= w < i ==> mask[w] == AllOnes32
      invariant forall w :: i <= w < 4 ==> mask[w] == old(mask[w])
    {
      mask[i] := AllOnes32;
      i := i + 1;
    }
    if p % 32 != 0 {
      mask[i] := partial;
    }
  }

  /** The IPv6 mask as the parser computes it: the last, partial word is
      `~0 << (p % 32)`. */
  function Ip6MaskAsWritten(mask: Ip6Mask, p: nat): (r: Ip6Mask)
    requires p <= 128
    ensures forall w :: 0 <= w < 4 && (w != p / 32 || p % 32 == 0) ==> r[w] == Ip6PrefixMask(mask, p)[w]
    ensures p % 32 != 0 ==> r[p / 32] == PrefixWord(32 - p % 32)
  {
    ShiftedOnesIsPrefix(p % 32);
    CoverPrefix(mask, p, Shl(AllOnes32, p % 32))
  }

  /** The IPv6 mask of a prefix of p bits: the partial word has the p % 32
      leading bits of the prefix set. */
  function Ip6PrefixMask(mask: Ip6Mask, p: nat): Ip6Mask
    requires p <= 128
  {
    CoverPrefix(mask, p, PrefixWord(p % 32))
  }

  /** The number of the prefix's bits that fall in word w: none before the
      prefix reaches it, 32 for a word wholly inside it. */
  function BitsInWord(p: nat, w: nat): (k: nat)
    ensures k <= 32
  {
    if p <= 32 * w then 0 else if p - 32 * w >= 32 then 32 else p - 32 * w
  }

  /** Starting from an empty mask, word w of an IPv6 prefix mask of p bits
      has exactly the prefix's bits in that word set: bit j of the 128-bit
      mask, counted from the most significant, is set iff j < p. */
  lemma Ip6PrefixMaskWords(p: nat)
    requires p <= 128
    ensures forall w :: 0 <= w < 4 ==> Ip6PrefixMask(ZeroIp6Mask, p)[w] == PrefixWord(BitsInWord(p, w))
  {
    forall w | 0 <= w < 4
      ensures Ip6PrefixMask(ZeroIp6Mask, p)[w] == PrefixWord(BitsInWord(p, w))
    {
      Pow2Of32();
      assert PrefixWord(32) == AllOnes32;
      assert PrefixWord(0) == 0;
    }
  }

  /** As written, the word a prefix ends inside gets 32 - p % 32 leading
      bits instead of p % 32: the complement of the intended partial mask. */
  lemma Ip6PartialWordAsWritten(mask: Ip6Mask, p: nat)
    requires p <= 128 && p % 32 != 0
    ensures Ip6MaskAsWritten(mask, p)[p / 32] == PrefixWord(32 - p % 32)
    ensures Ip6PrefixMask(mask, p)[p / 32] == PrefixWord(p % 32)
  {
    ShiftedOnesIsPrefix(p % 32);
  }

  /** The two agree exactly when the prefix ends on a word boundary or in
      the middle of a word. */
  lemma Ip6MaskAsWrittenAgrees(mask: Ip6Mask, p: nat)
    requires p <= 128
    ensures Ip6MaskAsWritten(mask, p) == Ip6PrefixMask(mask, p) <==> p % 32 == 0 || p % 32 == 16
  {
    if p % 32 != 0 {
      Ip6PartialWordAsWritten(mask, p);
      PrefixWordInjective(32 - p % 32, p % 32);
    }
  }

  lemma PrefixWordInjective(a: nat, b: nat)
    requires a <= 32 && b <= 32
    ensures PrefixWord(a) == PrefixWord(b) <==> a == b
  {
    if a != b {
      if a < b {
        Pow2Monotonic(32 - b + 1, 32 - a);
      } else {
        Pow2Monotonic(32 - a + 1, 32 - b);
      }
    }
  }

  /** `--srcip6pfx 8` on an empty mask: the first word is 0xFFFFFF00 where
      the prefix mask is 0xFF000000. */
  lemma Ip6Prefix8AsWritten()
    ensures Ip6MaskAsWritten(ZeroIp6Mask, 8) == [0xFFFF_FF00, 0, 0, 0]
    ensures Ip6PrefixMask(ZeroIp6Mask, 8) == [0xFF00_0000, 0, 0, 0]
  {
    Ip6PartialWordAsWritten(ZeroIp6Mask, 8);
    Pow2Of32();
    var written, meant := Ip6MaskAsWritten(ZeroIp6Mask, 8), Ip6PrefixMask(ZeroIp6Mask, 8);
    assert written[0] == 0xFFFF_FF00 && meant[0] == 0xFF00_0000;
    assert written[1] == written[2] == written[3] == 0;
    assert meant[1] == meant[2] == meant[3] == 0;
  }
}
