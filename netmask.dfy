/** Netmasks as numbers: the mask of a prefix length, and the search for the
    prefix length of a mask (what the ipaddress module does when it is given a
    dotted netmask). */
module Netmask {
  import opened Outcome
  import opened Radix
  import opened Dotted

  /** The mask with `prefix` leading 1-bits in a `width`-bit address. */
  function MaskValue(width: nat, prefix: nat): (m: nat)
    requires prefix <= width
    ensures m < Pow2(width)
  {
    Pow2Monotone(width - prefix, width);
    Pow2(width) - Pow2(width - prefix)
  }

  /** Different prefix lengths have different masks. */
  lemma MaskValueInjective(width: nat, p: nat, q: nat)
    requires p <= width && q <= width
    requires MaskValue(width, p) == MaskValue(width, q)
    ensures p == q
  {
    if p < q {
      Pow2StrictlyIncreasing(width - q, width - p);
    } else if q < p {
      Pow2StrictlyIncreasing(width - p, width - q);
    }
  }

  /** The prefix length whose mask is m, if m is a contiguous mask. */
  function PrefixOfMask(width: nat, m: nat): (r: Option<nat>)
    ensures r.Some? ==> r.value <= width && MaskValue(width, r.value) == m
  {
    PrefixSearch(width, m, 0)
  }

  function PrefixSearch(width: nat, m: nat, from: nat): (r: Option<nat>)
    requires from <= width + 1
    ensures r.Some? ==> from <= r.value <= width && MaskValue(width, r.value) == m
    decreases width + 1 - from
  {
    if from > width then None
    else if MaskValue(width, from) == m then Some(from)
    else PrefixSearch(width, m, from + 1)
  }

  /** The search fails only when no prefix length has m for its mask. */
  lemma {:induction false} PrefixSearchNone(width: nat, m: nat, from: nat)
    requires from <= width + 1
    ensures PrefixSearch(width, m, from).None? <==> forall p :: from <= p <= width ==> MaskValue(width, p) != m
    decreases width + 1 - from
  {
    if from <= width {
      PrefixSearchNone(width, m, from + 1);
    }
  }

  /** m is no mask of the width exactly when the search for its prefix
      length fails. */
  lemma PrefixOfMaskNone(width: nat, m: nat)
    ensures PrefixOfMask(width, m).None? <==> forall p :: 0 <= p <= width ==> MaskValue(width, p) != m
  {
    PrefixSearchNone(width, m, 0);
  }

  /** The search finds p for the mask of p. */
  lemma PrefixOfMaskValue(width: nat, p: nat)
    requires p <= width
    ensures PrefixOfMask(width, MaskValue(width, p)) == Some(p)
  {
    var m := MaskValue(width, p);
    PrefixOfMaskNone(width, m);
    MaskValueInjective(width, p, PrefixOfMask(width, m).value);
  }

  /** The mask of prefix p, written as `width` binary digits, is p ones
      followed by zeros. */
  lemma MaskBits(width: nat, p: nat)
    requires p <= width
    ensures Ones(p) + Zeros(width - p) == BinPad(MaskValue(width, p), width)
  {
    var t := Ones(p) + Zeros(width - p);
    MaskDigitsValue(width, p);
    OnesZerosValue(p, width - p);
    BinPadOfValue(t);
    assert |t| == width;
  }

  /** Binary digits contain "01" exactly when their value is no mask of
      their width; otherwise the number of 1s is the mask's prefix. */
  lemma MaskDigits(b: string)
    requires IsBinary(b)
    ensures HasZeroOne(b) <==> PrefixOfMask(|b|, BinValue(b)).None?
    ensures !HasZeroOne(b) ==> CountOnes(b) == PrefixOfMask(|b|, BinValue(b)).value
  {
    if !HasZeroOne(b) {
      NoZeroOneMask(b);
    } else if PrefixOfMask(|b|, BinValue(b)).Some? {
      MaskNoZeroOne(b);
    }
  }

  /** Digits without "01" are 1s then 0s: the mask of their count of 1s. */
  lemma NoZeroOneMask(b: string)
    requires IsBinary(b) && !HasZeroOne(b)
    ensures PrefixOfMask(|b|, BinValue(b)) == Some(CountOnes(b))
  {
    var w, k := |b|, CountOnes(b);
    NoZeroOneShape(b);
    MaskDigitsValue(w, k);
    PrefixOfMaskValue(w, k);
  }

  /** p 1s followed by 0s up to the width spell the mask of prefix p. */
  lemma MaskDigitsValue(width: nat, p: nat)
    requires p <= width
    ensures BinValue(Ones(p) + Zeros(width - p)) == MaskValue(width, p)
  {
    var m := width - p;
    OnesZerosValue(p, m);
    assert p + m == width;
  }

  /** The digits of a mask value are 1s then 0s. */
  lemma MaskNoZeroOne(b: string)
    requires IsBinary(b) && PrefixOfMask(|b|, BinValue(b)).Some?
    ensures !HasZeroOne(b)
  {
    var w, v := |b|, BinValue(b);
    var p := PrefixOfMask(w, v).value;
    BinPadOfValue(b);
    MaskBits(w, p);
    assert b == Ones(p) + Zeros(w - p);
    OnesZerosShape(p, w - p);
  }

  /** The IPv4 netmask with `prefix` leading 1-bits. */
  function V4Mask(prefix: nat): (m: nat)
    requires prefix <= V4Bits
    ensures m < V4Count
  {
    V4CountPow2();
    MaskValue(V4Bits, prefix)
  }

  /** The IPv4 hostmask of a prefix: its low 32 - prefix bits set, the
      complement of the netmask. */
  function V4Hostmask(prefix: nat): (h: nat)
    requires prefix <= V4Bits
    ensures h < V4Count && h + V4Mask(prefix) == V4Count - 1
  {
    V4CountPow2();
    Pow2Monotone(V4Bits - prefix, V4Bits);
    Pow2(V4Bits - prefix) - 1
  }

  /** A hostmask of a prefix strictly between 0 and the width is not a
      netmask: it is odd, while every netmask but the all-ones one is even,
      and it is below the all-ones one. */
  lemma {:induction false} HostmaskIsNoNetmask(width: nat, p: nat, h: int)
    requires 0 < p < width && h == Pow2(width - p) - 1
    ensures h >= 0 && PrefixOfMask(width, h).None?
  {
    Pow2StrictlyIncreasing(width - p, width);
    assert Pow2(width - p) == 2 * Pow2(width - p - 1);
    assert Pow2(width) == 2 * Pow2(width - 1);
    forall q: nat | q <= width ensures MaskValue(width, q) != h {
      if q < width {
        assert Pow2(width - q) == 2 * Pow2(width - q - 1);
      }
    }
  }

  /** The complement of the hostmask of p is the netmask of p, and the
      search finds p for it. */
  lemma HostmaskComplement(width: nat, p: nat)
    requires p <= width
    ensures Pow2(width - p) - 1 < Pow2(width)
    ensures Pow2(width) - 1 - (Pow2(width - p) - 1) == MaskValue(width, p)
    ensures PrefixOfMask(width, MaskValue(width, p)) == Some(p)
  {
    Pow2Monotone(width - p, width);
    PrefixOfMaskValue(width, p);
  }

  /** What the ipaddress module makes of an IPv4 hostmask: for a prefix
      strictly between 0 and 32 it is no netmask, and its complement is the
      netmask of the prefix. */
  lemma V4HostmaskComplement(p: nat)
    requires 0 < p < V4Bits
    ensures PrefixOfMask(V4Bits, V4Hostmask(p)).None?
    ensures PrefixOfMask(V4Bits, V4Count - 1 - V4Hostmask(p)) == Some(p)
  {
    V4HostmaskIsNoNetmask(p);
    V4HostmaskComplementPrefix(p);
  }

  lemma V4HostmaskIsNoNetmask(p: nat)
    requires 0 < p < V4Bits
    ensures PrefixOfMask(V4Bits, V4Hostmask(p)).None?
  {
    V4HostmaskValue(p);
    HostmaskIsNoNetmask(V4Bits, p, V4Hostmask(p));
  }

  lemma V4HostmaskValue(p: nat)
    requires p <= V4Bits
    ensures V4Hostmask(p) == Pow2(V4Bits - p) - 1
  {
  }

  lemma V4HostmaskComplementPrefix(p: nat)
    requires 0 < p < V4Bits
    ensures PrefixOfMask(V4Bits, V4Count - 1 - V4Hostmask(p)) == Some(p)
  {
    assert V4Count - 1 - V4Hostmask(p) == MaskValue(V4Bits, p);
    HostmaskComplement(V4Bits, p);
  }
}
