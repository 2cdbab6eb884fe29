/** The scalar encodings of nanopb: base-128 varints, ZigZag, fixed-width integers, tags. A reader
    takes the bytes left in a stream and gives the value and the bytes after it. */
module PbWire {
  import opened Options
  import opened Words

  const U32 := 0x1_0000_0000
  const U64 := 0x1_0000_0000_0000_0000

  // ---------- varints ----------

  /** The bytes pb_encode_varint writes: seven bits at a time, least significant first, the top bit
      set on all but the last. */
  function VarintBytes(v: nat): (b: seq<byte>)
    ensures b != []
  {
    if v < 0x80 then [v] else [v % 0x80 + 0x80] + VarintBytes(v / 0x80)
  }

  datatype Read<+T> = Read(value: T, rest: seq<byte>)

  /** pb_decode_varint from bit position bitpos on, with `result` read so far. */
  function VarintLoop(s: seq<byte>, bitpos: nat, result: nat): (r: Option<Read<nat>>)
    ensures r.Some? ==> |r.value.rest| < |s|
    decreases |s|
  {
    if bitpos >= 64 || s == [] then None
    else
      var r := Or(result, ShiftLeft(64, s[0] as nat % 0x80, bitpos));
      if s[0] >= 0x80 then VarintLoop(s[1..], bitpos + 7, r) else Some(Read(r, s[1..]))
  }

  /** pb_decode_varint. */
  function ReadVarint(s: seq<byte>): (r: Option<Read<nat>>)
    ensures r.Some? ==> |r.value.rest| < |s|
  {
    VarintLoop(s, 0, 0)
  }

  /** The multi-byte loop of pb_decode_varint32_eof; bitpos is an 8-bit counter. */
  function Varint32Loop(s: seq<byte>, bitpos: nat, result: nat): (r: Option<Read<nat>>)
    requires bitpos < 0x100
    ensures r.Some? ==> |r.value.rest| < |s|
    decreases |s|
  {
    if s == [] then None
    else
      var b := s[0] as nat;
      var signExtension := if bitpos < 63 then 0xff else 0x01;
      if bitpos >= 32 && b % 0x80 != 0 && (result / 0x8000_0000 == 0 || b != signExtension) then None
      else
        var r := if bitpos >= 32 then result else Or(result, ShiftLeft(32, b % 0x80, bitpos));
        var next := (bitpos + 7) % 0x100;
        if b >= 0x80 then Varint32Loop(s[1..], next, r)
        else if next == 35 && b / 0x10 % 8 != 0 then None
        else Some(Read(r, s[1..]))
  }

  /** pb_decode_varint32. */
  function ReadVarint32(s: seq<byte>): (r: Option<Read<nat>>)
    ensures r.Some? ==> |r.value.rest| < |s|
  {
    if s == [] then None
    else if s[0] < 0x80 then Some(Read(s[0] as nat, s[1..]))
    else Varint32Loop(s[1..], 7, s[0] as nat % 0x80)
  }

  lemma {:induction false} OrIsSum(r: nat, m: nat, p: nat)
    requires r < Pow2(p)
    ensures Or(r, m * Pow2(p)) == r + m * Pow2(p)
  {
    if p == 0 {
      OrWithZero(m);
    } else {
      assert m * Pow2(p) == 2 * (m * Pow2(p - 1));
      OrIsSum(r / 2, m, p - 1);
    }
  }

  lemma {:induction false} OrWithZero(m: nat)
    ensures Or(0, m) == m
  {
    if m != 0 {
      OrWithZero(m / 2);
    }
  }

  lemma Pow2Splits(p: nat, k: nat)
    ensures Pow2(p + k) == Pow2(p) * Pow2(k)
  {
    if p > 0 {
      Pow2Splits(p - 1, k);
    }
  }

  /** A shift that loses no bits. */
  lemma ShiftExact(w: nat, m: nat, p: nat)
    requires m * Pow2(p) < Pow2(w)
    ensures ShiftLeft(w, m, p) == m * Pow2(p)
  {
    hide Pow2;
    RemainderUnique(m * Pow2(p), Pow2(w), 0, m * Pow2(p));
  }

  lemma Pow2Of7And16()
    ensures Pow2(7) == 0x80 && Pow2(16) == 0x1_0000
  {
    assert Pow2(8) == 0x100;
    assert Pow2(16) == 0x100 * Pow2(8);
  }

  lemma Pow2Values()
    ensures Pow2(7) == 0x80 && Pow2(32) == U32 && Pow2(64) == U64
  {
    Pow2Of7And16();
    hide Pow2;
    Pow2Splits(16, 16);
    Pow2Splits(32, 32);
  }

  /** Decoding continues an encoded value to `result + v * 2^bitpos`. */
  lemma {:induction false} VarintLoopOfBytes(v: nat, bitpos: nat, result: nat, rest: seq<byte>)
    requires result < Pow2(bitpos) && v * Pow2(bitpos) < U64 && bitpos < 64
    requires v != 0 || bitpos == 0
    ensures VarintLoop(VarintBytes(v) + rest, bitpos, result) == Some(Read(result + v * Pow2(bitpos), rest))
    decreases v
  {
    hide Pow2, Or, ShiftLeft;
    Pow2Values();
    var s := VarintBytes(v) + rest;
    var m, q, p := v % 0x80, v / 0x80, Pow2(bitpos);
    assert s[0] as nat % 0x80 == m;
    SplitProduct(v, m, q, p);
    ShiftExact(64, m, bitpos);
    OrIsSum(result, m, bitpos);
    if v < 0x80 {
      assert s[1..] == rest;
    } else {
      assert s[1..] == VarintBytes(q) + rest;
      Pow2Splits(bitpos, 7);
      NextGroup(q, bitpos, result, m);
      VarintLoopOfBytes(q, bitpos + 7, result + m * p, rest);
    }
  }

  lemma SplitProduct(v: nat, m: nat, q: nat, p: nat)
    requires v == 0x80 * q + m
    ensures v * p == q * (p * 0x80) + m * p
    ensures m * p <= v * p
  {
  }

  /** The next seven-bit group still starts inside the word. */
  lemma NextGroup(q: nat, bitpos: nat, result: nat, m: nat)
    requires q > 0 && m < 0x80 && result < Pow2(bitpos) && q * (Pow2(bitpos) * 0x80) < U64
    ensures bitpos + 7 < 64 && q * Pow2(bitpos + 7) < U64
    ensures result + m * Pow2(bitpos) < Pow2(bitpos + 7)
  {
    hide Pow2;
    Pow2Values();
    Pow2Splits(bitpos, 7);
    var p := Pow2(bitpos);
    assert m * p <= 0x7f * p;
    if bitpos + 7 >= 64 {
      Pow2AtLeast(bitpos + 7);
    }
  }

  lemma Pow2AtLeast(k: nat)
    requires k >= 64
    ensures Pow2(k) >= U64
  {
    hide Pow2;
    Pow2Values();
    if k > 64 {
      Pow2Grows(64, k);
    }
  }

  /** Every 64-bit value decodes back, and exactly its bytes are consumed. */
  lemma VarintRoundTrip(v: nat, rest: seq<byte>)
    requires v < U64
    ensures ReadVarint(VarintBytes(v) + rest) == Some(Read(v, rest))
  {
    VarintLoopOfBytes(v, 0, 0, rest);
  }

  lemma {:induction false} VarintLength(v: nat, n: nat)
    requires v < Pow2(7 * n) && n > 0
    ensures |VarintBytes(v)| <= n
    decreases n
  {
    if v >= 0x80 {
      Pow2Values();
      Pow2Splits(7 * (n - 1), 7);
      if n > 1 {
        VarintLength(v / 0x80, n - 1);
      }
    }
  }

  lemma VarintAtMostTenBytes(v: nat)
    requires v < U64
    ensures 1 <= |VarintBytes(v)| <= 10
  {
    Pow2Values();
    Pow2Grows(64, 70);
    VarintLength(v, 10);
  }

  lemma DivTwice(v: nat, a: nat, b: nat)
    requires a > 0 && b > 0
    ensures a * b > 0 && v / a / b == v / (a * b)
  {
    var q, r := v / a, v % a;
    assert v == a * q + r;
    Regroup(a, b, q / b, q % b);
    RemainderUnique(v, a * b, q / b, a * (q % b) + r);
  }

  lemma Regroup(a: nat, b: nat, q: nat, r: nat)
    requires a > 0 && r < b
    ensures a * b > 0 && a * (b * q + r) == a * b * q + a * r && a * r + a <= a * b
  {
    assert a * (r + 1) <= a * b;
  }

  /** Byte k of a varint holds bits 7k to 7k + 6 of the value, and says whether another byte follows. */
  lemma {:induction false} VarintByte(v: nat, k: nat)
    requires k < |VarintBytes(v)|
    ensures VarintBytes(v)[k] as nat == v / Pow2(7 * k) % 0x80 + if k + 1 < |VarintBytes(v)| then 0x80 else 0
    ensures v / Pow2(7 * |VarintBytes(v)|) == 0
    decreases v
  {
    Pow2Of7And16();
    hide Pow2;
    assert Pow2(0) == 1 by { Pow2OfZero(); }
    if v >= 0x80 {
      var t := VarintBytes(v / 0x80);
      VarintByte(v / 0x80, if k > 0 then k - 1 else 0);
      Pow2Splits(7, 7 * |t|);
      DivTwice(v, 0x80, Pow2(7 * |t|));
      if k > 0 {
        Pow2Splits(7, 7 * (k - 1));
        DivTwice(v, 0x80, Pow2(7 * (k - 1)));
      }
    }
  }

  lemma Pow2OfZero()
    ensures Pow2(0) == 1
  {
  }

  // ---------- the 32-bit reader against the 64-bit one ----------

  /** The varint ends within the first n bytes. */
  predicate EndsWithin(s: seq<byte>, n: nat) {
    n > 0 && s != [] && (s[0] < 0x80 || EndsWithin(s[1..], n - 1))
  }

  lemma ShiftModU32(m: nat, bitpos: nat)
    requires bitpos < 64
    ensures bitpos >= 32 ==> ShiftLeft(64, m, bitpos) % U32 == 0
    ensures bitpos < 32 ==> ShiftLeft(64, m, bitpos) % U32 == ShiftLeft(32, m, bitpos)
  {
    hide Pow2;
    Pow2Values();
    var x := m * Pow2(bitpos);
    assert x % U64 % U32 == x % U32;
    if bitpos >= 32 {
      Pow2Splits(bitpos - 32, 32);
      MultipleMod(m * Pow2(bitpos - 32), U32);
      assert x == m * Pow2(bitpos - 32) * U32;
    }
  }

  lemma MultipleMod(a: nat, n: nat)
    requires n > 0
    ensures (a * n) % n == 0
  {
    RemainderUnique(a * n, n, a, 0);
  }

  /** Or commutes with taking the low 32 bits. */
  lemma OrModU32(a: nat, b: nat)
    ensures Or(a, b) % U32 == Or(a % U32, b % U32)
  {
    Pow2Values();
    OrBound(a % U32, b % U32, 32);
    forall i: nat | i < 32
      ensures Bit(Or(a, b) % U32, i) <==> Bit(Or(a % U32, b % U32), i)
    {
      BitOfTruncated(32, Or(a, b), i);
      BitOfOr(a, b, i);
      BitOfTruncated(32, a, i);
      BitOfTruncated(32, b, i);
      BitOfOr(a % U32, b % U32, i);
    }
    SameBits(32, Or(a, b) % U32, Or(a % U32, b % U32));
  }

  lemma {:induction false} Loop32IsLow(s: seq<byte>, bitpos: nat, r32: nat, r64: nat, n: nat)
    requires r32 == r64 % U32 && bitpos + 7 * n <= 70 && EndsWithin(s, n)
    requires Varint32Loop(s, bitpos, r32).Some?
    ensures VarintLoop(s, bitpos, r64).Some?
    ensures Varint32Loop(s, bitpos, r32).value ==
            Read(VarintLoop(s, bitpos, r64).value.value % U32, VarintLoop(s, bitpos, r64).value.rest)
    decreases |s|
  {
    hide Pow2, Or, ShiftLeft;
    var m := s[0] as nat % 0x80;
    ShiftModU32(m, bitpos);
    OrModU32(r64, ShiftLeft(64, m, bitpos));
    OrWithZeroRight(r32);
    var r64' := Or(r64, ShiftLeft(64, m, bitpos));
    var r32' := if bitpos >= 32 then r32 else Or(r32, ShiftLeft(32, m, bitpos));
    assert r32' == r64' % U32;
    if s[0] >= 0x80 {
      Loop32IsLow(s[1..], bitpos + 7, r32', r64', n - 1);
    }
  }

  lemma {:induction false} OrWithZeroRight(m: nat)
    ensures Or(m, 0) == m
  {
    if m != 0 {
      OrWithZeroRight(m / 2);
    }
  }

  lemma ShiftByZero(m: nat)
    requires m < 0x80
    ensures Or(0, ShiftLeft(64, m, 0)) == m
  {
    hide Or, ShiftLeft;
    Pow2Values();
    assert Pow2(0) == 1;
    OrWithZero(m);
    ShiftExact(64, m, 0);
  }

  lemma FirstGroup(s: seq<byte>)
    requires s != []
    ensures ReadVarint(s) ==
            (if s[0] >= 0x80 then VarintLoop(s[1..], 7, s[0] as nat % 0x80) else Some(Read(s[0] as nat, s[1..])))
  {
    hide Pow2, Or, ShiftLeft;
    var m := s[0] as nat % 0x80;
    ShiftByZero(m);
    assert VarintLoop(s, 0, 0) == (if s[0] >= 0x80 then VarintLoop(s[1..], 7, m) else Some(Read(m, s[1..])));
  }

  /** On any varint that ends within ten bytes, a success of pb_decode_varint32 consumes what
      pb_decode_varint consumes and returns the low 32 bits of its value. */
  lemma Varint32IsLow(s: seq<byte>)
    requires EndsWithin(s, 10) && ReadVarint32(s).Some?
    ensures ReadVarint(s).Some?
    ensures ReadVarint32(s).value == Read(ReadVarint(s).value.value % U32, ReadVarint(s).value.rest)
  {
    hide Pow2, Or, ShiftLeft, VarintLoop, Varint32Loop, ReadVarint;
    FirstGroup(s);
    if s[0] >= 0x80 {
      Loop32IsLow(s[1..], 7, s[0] as nat % 0x80, s[0] as nat % 0x80, 9);
    }
  }

  lemma {:induction false} BytesEndWithin(v: nat, n: nat, rest: seq<byte>)
    requires |VarintBytes(v)| <= n
    ensures EndsWithin(VarintBytes(v) + rest, n)
    decreases n
  {
    var s := VarintBytes(v) + rest;
    if v >= 0x80 {
      assert s[1..] == VarintBytes(v / 0x80) + rest;
      BytesEndWithin(v / 0x80, n - 1, rest);
    }
  }

  /** The next seven-bit group still starts inside the word, and the last one has four bits. */
  lemma NextGroup32(v: nat, bitpos: nat)
    requires bitpos in {7, 14, 21, 28} && v * Pow2(bitpos) < U32
    ensures bitpos == 28 ==> v < 0x10
    ensures v >= 0x80 ==> bitpos + 7 in {7, 14, 21, 28} && v / 0x80 * Pow2(bitpos + 7) < U32
  {
    hide Pow2;
    Pow2Of7And16();
    Pow2Splits(7, 7);
    Pow2Splits(7, 14);
    Pow2Splits(7, 21);
    Pow2Splits(bitpos, 7);
    assert Pow2(28) == 0x1000_0000;
    var p := Pow2(bitpos);
    assert Pow2(bitpos + 7) == p * 0x80;
    SplitProduct(v, v % 0x80, v / 0x80, p);
    if bitpos == 28 {
      assert v * p == v * 0x1000_0000;
    }
  }

  /** One turn of the multi-byte loop inside the first 35 bits. */
  lemma Group32Step(s: seq<byte>, bitpos: nat, result: nat)
    requires s != [] && bitpos in {7, 14, 21, 28}
    ensures s[0] >= 0x80 && Varint32Loop(s[1..], bitpos + 7, Or(result, ShiftLeft(32, s[0] as nat % 0x80, bitpos))).Some? ==>
              Varint32Loop(s, bitpos, result).Some?
    ensures s[0] < 0x80 && (bitpos == 28 ==> s[0] < 0x10) ==> Varint32Loop(s, bitpos, result).Some?
  {
    hide Pow2, Or, ShiftLeft;
  }

  lemma {:induction false} Loop32Accepts(v: nat, bitpos: nat, result: nat, rest: seq<byte>)
    requires bitpos in {7, 14, 21, 28} && v != 0 && v * Pow2(bitpos) < U32
    ensures Varint32Loop(VarintBytes(v) + rest, bitpos, result).Some?
    decreases v
  {
    hide Pow2, Or, ShiftLeft, Varint32Loop, VarintBytes;
    var s := VarintBytes(v) + rest;
    NextGroup32(v, bitpos);
    VarintSteps(v);
    Group32Step(s, bitpos, result);
    if v >= 0x80 {
      assert s[1..] == VarintBytes(v / 0x80) + rest;
      Loop32Accepts(v / 0x80, bitpos + 7, Or(result, ShiftLeft(32, s[0] as nat % 0x80, bitpos)), rest);
    }
  }

  lemma CanonicalAccepted(v: nat, rest: seq<byte>)
    requires v < U32
    ensures ReadVarint32(VarintBytes(v) + rest).Some?
  {
    Pow2Of7And16();
    hide Pow2, Or, ShiftLeft, Varint32Loop;
    var s := VarintBytes(v) + rest;
    if v >= 0x80 {
      assert s[1..] == VarintBytes(v / 0x80) + rest;
      Loop32Accepts(v / 0x80, 7, s[0] as nat % 0x80, rest);
    }
  }

  /** pb_decode_varint32 accepts the encoding of every 32-bit value and returns it. */
  lemma Varint32RoundTrip(v: nat, rest: seq<byte>)
    requires v < U32
    ensures ReadVarint32(VarintBytes(v) + rest) == Some(Read(v, rest))
  {
    hide ReadVarint, ReadVarint32, VarintBytes, EndsWithin;
    CanonicalAccepted(v, rest);
    VarintAtMostTenBytes(v);
    BytesEndWithin(v, 10, rest);
    Varint32IsLow(VarintBytes(v) + rest);
    VarintRoundTrip(v, rest);
  }

  /** All-ones groups above bit 35 are taken for a sign extension. */
  lemma Loop32SkipsSign(result: nat, rest: seq<byte>)
    requires result / 0x8000_0000 != 0
    ensures Varint32Loop([0xff, 0xff, 0xff, 0xff, 0x01] + rest, 35, result) == Some(Read(result, rest))
  {
    var s := [0xff, 0xff, 0xff, 0xff, 0x01] + rest;
    assert s[1..][1..][1..][1..] == [0x01] + rest;
    assert ([0x01] + rest)[1..] == rest;
    assert Varint32Loop([0x01] + rest, 63, result) == Some(Read(result, rest));
    assert Varint32Loop(s[1..][1..][1..], 56, result) == Some(Read(result, rest));
    assert Varint32Loop(s[1..][1..], 49, result) == Some(Read(result, rest));
    assert Varint32Loop(s[1..], 42, result) == Some(Read(result, rest));
  }

  lemma VarintSteps(v: nat)
    ensures v >= 0x80 ==> VarintBytes(v) == [v % 0x80 + 0x80] + VarintBytes(v / 0x80)
    ensures v < 0x80 ==> VarintBytes(v) == [v]
  {
  }

  lemma OnesBytes()
    ensures VarintBytes(0x1fff_ffff) == [0xff, 0xff, 0xff, 0xff, 0x01]
  {
    assert VarintBytes(0x1) == [0x1];
    assert VarintBytes(0xff) == [0xff, 0x01];
    assert VarintBytes(0x7fff) == [0xff] + VarintBytes(0xff);
    assert VarintBytes(0x3f_ffff) == [0xff] + VarintBytes(0x7fff);
    assert VarintBytes(0x1fff_ffff) == [0xff] + VarintBytes(0x3f_ffff);
  }

  /** The ten bytes of a 64-bit value whose top 33 bits are ones. */
  lemma NegativeBytes(v: nat)
    requires U64 - 0x8000_0000 <= v < U64
    ensures var b := VarintBytes(v);
            && |b| == 10 && b[5..] == [0xff, 0xff, 0xff, 0xff, 0x01]
            && (forall i :: 0 <= i < 5 ==> b[i] >= 0x80) && b[4] as nat % 0x80 >= 0x78
  {
    hide VarintBytes;
    OnesBytes();
    var v1 := v / 0x80;
    var v2 := v1 / 0x80;
    var v3 := v2 / 0x80;
    var v4 := v3 / 0x80;
    assert v4 / 0x80 == 0x1fff_ffff;
    VarintSteps(v);
    VarintSteps(v1);
    VarintSteps(v2);
    VarintSteps(v3);
    VarintSteps(v4);
    var front := [v % 0x80 + 0x80, v1 % 0x80 + 0x80, v2 % 0x80 + 0x80, v3 % 0x80 + 0x80, v4 % 0x80 + 0x80];
    assert VarintBytes(v) == front + VarintBytes(0x1fff_ffff);
  }

  /** pb_decode_varint32 also accepts every negative int32 in its sign-extended 64-bit encoding. */
  lemma Varint32AcceptsNegative(n: int, rest: seq<byte>)
    requires -0x8000_0000 <= n < 0
    ensures ReadVarint32(VarintBytes(n + U64) + rest) == Some(Read(n + U32, rest))
  {
    hide ReadVarint, ReadVarint32, VarintBytes, EndsWithin;
    var v := n + U64;
    NegativeBytes(v);
    NegativeAccepted(VarintBytes(v), rest);
    BytesEndWithin(v, 10, rest);
    Varint32IsLow(VarintBytes(v) + rest);
    VarintRoundTrip(v, rest);
    assert v % U32 == n + U32;
  }

  lemma NegativeAccepted(b: seq<byte>, rest: seq<byte>)
    requires |b| == 10 && b[5..] == [0xff, 0xff, 0xff, 0xff, 0x01]
    requires (forall i :: 0 <= i < 5 ==> b[i] >= 0x80) && b[4] as nat % 0x80 >= 0x78
    ensures ReadVarint32(b + rest).Some?
  {
    hide Or, ShiftLeft, Pow2, Varint32Loop;
    var s := b + rest;
    var r0 := s[0] as nat % 0x80;
    var r1 := Or(r0, ShiftLeft(32, s[1] as nat % 0x80, 7));
    var r2 := Or(r1, ShiftLeft(32, s[2] as nat % 0x80, 14));
    var r3 := Or(r2, ShiftLeft(32, s[3] as nat % 0x80, 21));
    var r4 := Or(r3, ShiftLeft(32, s[4] as nat % 0x80, 28));
    TopBitOfFifth(r3, s[4] as nat % 0x80);
    Loop32SkipsSign(r4, rest);
    assert s[5..] == [0xff, 0xff, 0xff, 0xff, 0x01] + rest;
    AcceptsGroup(s, 4, 28, r3);
    AcceptsGroup(s, 3, 21, r2);
    AcceptsGroup(s, 2, 14, r1);
    AcceptsGroup(s, 1, 7, r0);
  }

  lemma AcceptsGroup(s: seq<byte>, k: nat, bitpos: nat, r: nat)
    requires k < |s| && s[k] >= 0x80 && bitpos < 32
    requires Varint32Loop(s[k + 1..], bitpos + 7, Or(r, ShiftLeft(32, s[k] as nat % 0x80, bitpos))).Some?
    ensures Varint32Loop(s[k..], bitpos, r).Some?
  {
    hide Or, ShiftLeft, Pow2;
    assert s[k..][1..] == s[k + 1..];
  }

  /** The fifth group of a negative int32 puts a one into bit 31. */
  lemma TopBitOfFifth(r: nat, m: nat)
    requires 0x78 <= m < 0x80
    ensures Or(r, ShiftLeft(32, m, 28)) / 0x8000_0000 != 0
  {
    Pow2Of7And16();
    Pow2Splits(16, 12);
    assert Pow2(12) == 0x1000;
    hide Pow2;
    Pow2Values();
    assert ShiftLeft(32, m, 28) >= 0x8000_0000;
    OrGrows(r, ShiftLeft(32, m, 28));
  }

  lemma {:induction false} OrGrows(a: nat, b: nat)
    ensures Or(a, b) >= b
  {
    if a != 0 || b != 0 {
      OrGrows(a / 2, b / 2);
    }
  }

  // ---------- ZigZag ----------

  /** pb_encode_svarint's mapping: `value << 1` in 64 bits, complemented for negative values. */
  function ZigZag(n: int): nat
    requires -0x8000_0000_0000_0000 <= n < 0x8000_0000_0000_0000
  {
    if n < 0 then U64 - 1 - (n + U64) * 2 % U64 else n * 2
  }

  /** pb_decode_svarint's mapping: `~(value >> 1)` for odd values. */
  function UnZigZag(v: nat): int {
    if v % 2 == 1 then U64 - 1 - v / 2 - U64 else v / 2
  }

  /** ZigZag maps the int64 values one to one onto the 64-bit words. */
  lemma ZigZagRoundTrip(n: int)
    requires -0x8000_0000_0000_0000 <= n < 0x8000_0000_0000_0000
    ensures ZigZag(n) < U64 && UnZigZag(ZigZag(n)) == n
  {
  }

  lemma UnZigZagRoundTrip(v: nat)
    requires v < U64
    ensures -0x8000_0000_0000_0000 <= UnZigZag(v) < 0x8000_0000_0000_0000 && ZigZag(UnZigZag(v)) == v
  {
  }

  /** Small magnitudes have small codes, a negative number before its positive: 0, -1, 1, -2, 2, ... */
  lemma ZigZagOrder(n: int, m: int)
    requires -0x8000_0000_0000_0000 <= n < 0x8000_0000_0000_0000 && -0x8000_0000_0000_0000 <= m < 0x8000_0000_0000_0000
    ensures ZigZag(n) < ZigZag(m) <==> Magnitude(n) < Magnitude(m) || (Magnitude(n) == Magnitude(m) && n < m)
  {
  }

  function Magnitude(n: int): nat {
    if n < 0 then -n else n
  }

  // ---------- fixed-width integers ----------

  /** n bytes of v, least significant first. */
  function FixedBytes(v: nat, n: nat): (b: seq<byte>)
    ensures |b| == n
  {
    if n == 0 then [] else [v % 0x100] + FixedBytes(v / 0x100, n - 1)
  }

  function FixedValue(b: seq<byte>): nat {
    if b == [] then 0 else b[0] as nat + 0x100 * FixedValue(b[1..])
  }

  function ReadBytes(s: seq<byte>, n: nat): Option<Read<seq<byte>>> {
    if |s| < n then None else Some(Read(s[..n], s[n..]))
  }

  lemma {:induction false} FixedRoundTrip(v: nat, n: nat)
    requires v < Pow2(8 * n)
    ensures FixedValue(FixedBytes(v, n)) == v
    decreases n
  {
    if n > 0 {
      Pow2Splits(8 * (n - 1), 8);
      assert Pow2(8) == 0x100;
      FixedRoundTrip(v / 0x100, n - 1);
      assert FixedBytes(v, n)[1..] == FixedBytes(v / 0x100, n - 1);
    }
  }

  /** Byte k of a fixed-width integer holds bits 8k to 8k + 7. */
  lemma {:induction false} FixedByte(v: nat, n: nat, k: nat)
    requires k < n
    ensures FixedBytes(v, n)[k] as nat == v / Pow2(8 * k) % 0x100
    decreases n
  {
    if k == 0 {
      Pow2OfZero();
    } else {
      assert Pow2(8) == 0x100;
      hide Pow2;
      FixedByte(v / 0x100, n - 1, k - 1);
      Pow2Splits(8, 8 * (k - 1));
      DivTwice(v, 0x100, Pow2(8 * (k - 1)));
    }
  }

  // ---------- reading is a matter of the prefix consumed ----------

  lemma {:induction false} VarintLoopExtends(s: seq<byte>, bitpos: nat, result: nat, t: seq<byte>)
    requires VarintLoop(s, bitpos, result).Some?
    ensures var r := VarintLoop(s, bitpos, result).value;
            VarintLoop(s + t, bitpos, result) == Some(Read(r.value, r.rest + t))
    decreases |s|
  {
    hide Or, ShiftLeft;
    assert (s + t)[1..] == s[1..] + t;
    if s[0] >= 0x80 {
      VarintLoopExtends(s[1..], bitpos + 7, Or(result, ShiftLeft(64, s[0] as nat % 0x80, bitpos)), t);
    }
  }

  lemma VarintExtends(s: seq<byte>, t: seq<byte>)
    requires ReadVarint(s).Some?
    ensures var r := ReadVarint(s).value;
            ReadVarint(s + t) == Some(Read(r.value, r.rest + t))
  {
    VarintLoopExtends(s, 0, 0, t);
  }

  lemma {:induction false} Varint32LoopExtends(s: seq<byte>, bitpos: nat, result: nat, t: seq<byte>)
    requires bitpos < 0x100 && Varint32Loop(s, bitpos, result).Some?
    ensures var r := Varint32Loop(s, bitpos, result).value;
            Varint32Loop(s + t, bitpos, result) == Some(Read(r.value, r.rest + t))
    decreases |s|
  {
    hide Or, ShiftLeft;
    assert (s + t)[1..] == s[1..] + t;
    if s[0] >= 0x80 {
      var r := if bitpos >= 32 then result else Or(result, ShiftLeft(32, s[0] as nat % 0x80, bitpos));
      Varint32LoopExtends(s[1..], (bitpos + 7) % 0x100, r, t);
    }
  }

  lemma Varint32Extends(s: seq<byte>, t: seq<byte>)
    requires ReadVarint32(s).Some?
    ensures var r := ReadVarint32(s).value;
            ReadVarint32(s + t) == Some(Read(r.value, r.rest + t))
  {
    assert (s + t)[1..] == s[1..] + t;
    if s[0] >= 0x80 {
      Varint32LoopExtends(s[1..], 7, s[0] as nat % 0x80, t);
    }
  }

  lemma BytesExtend(s: seq<byte>, n: nat, t: seq<byte>)
    requires n <= |s|
    ensures ReadBytes(s + t, n) == Some(Read(s[..n], s[n..] + t))
  {
    assert (s + t)[..n] == s[..n] && (s + t)[n..] == s[n..] + t;
  }
}
