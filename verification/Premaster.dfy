/** The branch-free choice of the RSA premaster secret in do_read_client_key_exchange, with the
    constant_time_* functions it is made of. Words are 64 bits wide. */
module Premaster {
  type Word = bv64

  // ---------- crypto/internal.h ----------

  function ConstantTimeMsb(a: Word): Word {
    0 - (a >> 63)
  }

  function ConstantTimeIsZero(a: Word): Word {
    ConstantTimeMsb(!a & (a - 1))
  }

  function ConstantTimeEq(a: Word, b: Word): Word {
    ConstantTimeIsZero(a ^ b)
  }

  /** The cast to uint8_t. */
  function Low8(a: Word): bv8 {
    (a & 0xff) as bv8
  }

  function ConstantTimeIsZero8(a: Word): bv8 {
    Low8(ConstantTimeIsZero(a))
  }

  function ConstantTimeEq8(a: Word, b: Word): bv8 {
    Low8(ConstantTimeEq(a, b))
  }

  function ConstantTimeSelect8(mask: bv8, a: bv8, b: bv8): bv8 {
    Low8((mask as Word & a as Word) | (!(mask as Word) & b as Word))
  }

  /** `&` and `~` on uint8_t. */
  function And8(a: bv8, b: bv8): bv8 {
    a & b
  }

  function Not8(a: bv8): bv8 {
    !a
  }

  /** What the masks mean: all ones for yes, zero for no. */
  function MaskOf(b: bool): bv8 {
    if b then 0xff else 0
  }

  lemma IsZeroMask(a: Word)
    ensures ConstantTimeIsZero(a) == if a == 0 then 0xffff_ffff_ffff_ffff else 0
  {
  }

  lemma IsZero8Mask(a: Word)
    ensures ConstantTimeIsZero8(a) == MaskOf(a == 0)
  {
    IsZeroMask(a);
  }

  lemma Eq8Mask(a: Word, b: Word)
    ensures ConstantTimeEq8(a, b) == MaskOf(a == b)
  {
    assert a ^ b == 0 <==> a == b;
    IsZeroMask(a ^ b);
  }

  lemma SelectMask(yes: bool, a: bv8, b: bv8)
    ensures ConstantTimeSelect8(MaskOf(yes), a, b) == if yes then a else b
  {
  }

  lemma AndMask(p: bool, q: bool)
    ensures And8(MaskOf(p), MaskOf(q)) == MaskOf(p && q) && Not8(MaskOf(p)) == MaskOf(!p)
  {
  }

  /** The promotion of a uint8_t. */
  function Widen(b: bv8): Word {
    b as Word
  }

  // ---------- the choice ----------

  const PREMASTER := 48

  /** `client_version >> 8` and `client_version & 0xff`. */
  function VersionHigh(v: bv16): Word {
    (v >> 8) as Word
  }

  function VersionLow(v: bv16): Word {
    (v & 0xff) as Word
  }

  /** A version as it stands in the premaster: the high byte first. */
  function VersionOf(high: bv8, low: bv8): bv16 {
    ((high as bv16) << 8) | low as bv16
  }

  lemma VersionBytes(high: bv8, low: bv8, version: bv16)
    ensures Widen(high) == VersionHigh(version) && Widen(low) == VersionLow(version) <==> VersionOf(high, low) == version
  {
  }

  /** The padding of section 7.2.2 of RFC 3447 around a premaster of 48 bytes that begins with the
      client's version. */
  predicate WellFormed(d: seq<bv8>, version: bv16)
    requires |d| >= 11 + PREMASTER
  {
    var p := |d| - PREMASTER;
    && d[0] == 0 && d[1] == 2
    && (forall i :: 2 <= i < p - 1 ==> d[i] != 0)
    && d[p - 1] == 0
    && VersionOf(d[p], d[p + 1]) == version
  }

  lemma ByteIs(b: bv8, v: Word)
    requires v == 0 || v == 2
    ensures ConstantTimeEq8(Widen(b), v) == MaskOf(b == if v == 0 then 0 else 2)
    ensures ConstantTimeIsZero8(Widen(b)) == MaskOf(b == 0)
  {
    Eq8Mask(Widen(b), v);
    IsZero8Mask(Widen(b));
  }

  /** One more condition on the mask. */
  lemma NonZeroStep(good: bv8, fine: bool, b: bv8)
    requires good == MaskOf(fine)
    ensures And8(good, Not8(ConstantTimeIsZero8(Widen(b)))) == MaskOf(fine && b != 0)
  {
    hide MaskOf, ConstantTimeIsZero8, And8, Not8, Widen;
    ByteIs(b, 0);
    AndMask(b == 0, true);
    AndMask(fine, b != 0);
  }

  lemma ZeroStep(good: bv8, fine: bool, b: bv8)
    requires good == MaskOf(fine)
    ensures And8(good, ConstantTimeIsZero8(Widen(b))) == MaskOf(fine && b == 0)
  {
    hide MaskOf, ConstantTimeIsZero8, And8, Not8, Widen;
    ByteIs(b, 0);
    AndMask(fine, b == 0);
  }

  lemma EqStep(good: bv8, fine: bool, b: bv8, w: Word)
    requires good == MaskOf(fine)
    ensures And8(good, ConstantTimeEq8(Widen(b), w)) == MaskOf(fine && Widen(b) == w)
  {
    hide MaskOf, ConstantTimeEq8, And8, Not8, Widen;
    Eq8Mask(Widen(b), w);
    AndMask(fine, Widen(b) == w);
  }

  /** The mask over the bytes from 2 up to n: 0 and 2 in front, and none of them zero. */
  method CheckFront(d: seq<bv8>, n: nat) returns (good: bv8)
    requires 2 <= n <= |d|
    ensures good == MaskOf(d[0] == 0 && d[1] == 2 && forall i :: 2 <= i < n ==> d[i] != 0)
  {
    hide ConstantTimeEq8, ConstantTimeIsZero8, MaskOf, And8, Not8, Widen;
    ByteIs(d[0], 0);
    ByteIs(d[1], 2);
    AndMask(d[0] == 0, d[1] == 2);
    good := And8(ConstantTimeEq8(Widen(d[0]), 0), ConstantTimeEq8(Widen(d[1]), 2));
    ghost var fine := d[0] == 0 && d[1] == 2;
    var i := 2;
    while i < n
      invariant 2 <= i <= n && good == MaskOf(fine)
      invariant fine <==> d[0] == 0 && d[1] == 2 && forall k :: 2 <= k < i ==> d[k] != 0
    {
      NonZeroStep(good, fine, d[i]);
      good := And8(good, Not8(ConstantTimeIsZero8(Widen(d[i]))));
      fine := fine && d[i] != 0;
      i := i + 1;
    }
  }

  /** The padding check: the mask is all ones or zero throughout, and tells whether all is well. */
  method CheckPadding(d: seq<bv8>, version: bv16) returns (good: bv8)
    requires |d| >= 11 + PREMASTER
    ensures good == MaskOf(WellFormed(d, version))
  {
    hide WellFormed, MaskOf, And8, Not8, ConstantTimeIsZero8, ConstantTimeEq8,
         VersionHigh, VersionLow, Widen;
    var p := |d| - PREMASTER;
    good := CheckFront(d, p - 1);
    ghost var front := d[0] == 0 && d[1] == 2 && forall i :: 2 <= i < p - 1 ==> d[i] != 0;
    ghost var zero, high, low := d[p - 1] == 0, Widen(d[p]) == VersionHigh(version), Widen(d[p + 1]) == VersionLow(version);
    ZeroStep(good, front, d[p - 1]);
    good := And8(good, ConstantTimeIsZero8(Widen(d[p - 1])));
    EqStep(good, front && zero, d[p], VersionHigh(version));
    good := And8(good, ConstantTimeEq8(Widen(d[p]), VersionHigh(version)));
    EqStep(good, front && zero && high, d[p + 1], VersionLow(version));
    good := And8(good, ConstantTimeEq8(Widen(d[p + 1]), VersionLow(version)));
    WellFormedParts(d, version, front, zero, high, low);
  }

  lemma WellFormedParts(d: seq<bv8>, version: bv16, front: bool, zero: bool, high: bool, low: bool)
    requires |d| >= 11 + PREMASTER
    requires var p := |d| - PREMASTER;
             && front == (d[0] == 0 && d[1] == 2 && forall i :: 2 <= i < p - 1 ==> d[i] != 0)
             && zero == (d[p - 1] == 0) && high == (Widen(d[p]) == VersionHigh(version))
             && low == (Widen(d[p + 1]) == VersionLow(version))
    ensures WellFormed(d, version) == (front && zero && high && low)
  {
    hide VersionHigh, VersionLow, Widen, VersionOf;
    VersionBytes(d[|d| - PREMASTER], d[|d| - PREMASTER + 1], version);
  }

  /** The premaster buffer holds random bytes. After this it holds the decrypted premaster when the
      decryption is well formed, and is unchanged when not (section 7.4.7.1 of RFC 5246); a
      decryption too short for any premaster is refused. */
  method SelectPremaster(d: seq<bv8>, version: bv16, premaster: array<bv8>) returns (ok: bool)
    requires premaster.Length == PREMASTER
    modifies premaster
    ensures ok <==> |d| >= 11 + PREMASTER
    ensures premaster[..] == if ok && WellFormed(d, version) then d[|d| - PREMASTER..] else old(premaster[..])
  {
    hide ConstantTimeSelect8, MaskOf;
    if |d| < 11 + PREMASTER {
      return false;
    }
    var good := CheckPadding(d, version);
    ghost var yes := WellFormed(d, version);
    var p := |d| - PREMASTER;
    var i := 0;
    while i < PREMASTER
      invariant 0 <= i <= PREMASTER
      invariant forall k :: 0 <= k < i ==> premaster[k] == if yes then d[p + k] else old(premaster[k])
      invariant forall k :: i <= k < PREMASTER ==> premaster[k] == old(premaster[k])
    {
      SelectMask(yes, d[p + i], premaster[i]);
      premaster[i] := ConstantTimeSelect8(good, d[p + i], premaster[i]);
      i := i + 1;
    }
    ok := true;
  }
}
