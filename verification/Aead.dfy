/** SSLAEADContext of ssl_aead_ctx.cc: the nonce, the additional data and the explicit part of a sealed
    record, over an AEAD whose two functions are parameters. Ciphers themselves are not part of this
    model. */
module Aead {
  import opened Options
  import opened Words
  import opened DtlsWire

  // ---------- nonces ----------

  /** The size of fixed_nonce_. */
  const MAX_FIXED_NONCE := 12

  /** The fixed part of the nonce, and whether it is put before the variable part or XORed into it. */
  datatype Scheme = Scheme(fixedNonce: seq<byte>, xorFixedNonce: bool) {
    predicate Ok() {
      |fixedNonce| <= MAX_FIXED_NONCE && (xorFixedNonce ==> |fixedNonce| >= 8)
    }
  }

  function XorByte(a: byte, b: byte): byte {
    assert Pow2(8) == 0x100;
    XorBound(a, b, 8);
    Xor(a, b)
  }

  /** The nonce of a record with this variable part. */
  function Nonce(s: Scheme, variable: seq<byte>): seq<byte>
    requires s.Ok() && (s.xorFixedNonce ==> |variable| == 8)
  {
    if s.xorFixedNonce then
      var padded := seq(|s.fixedNonce| - 8, _ => 0) + variable;
      seq(|s.fixedNonce|, i requires 0 <= i < |s.fixedNonce| => XorByte(padded[i], s.fixedNonce[i]))
    else s.fixedNonce + variable
  }

  // ---------- contexts ----------

  /** EVP_AEAD_MAX_OVERHEAD and EVP_AEAD_MAX_NONCE_LENGTH. */
  const EVP_MAX_OVERHEAD := 64 + 16

  type RawAead = (seq<byte>, seq<byte>, seq<byte>) -> Option<seq<byte>>

  /** `rawSeal` and `rawOpen` are the AEAD itself: nonce, additional data, input. `random` is what
      RAND_bytes gives for the record with a number; numbers never repeat under one context, so its
      draws are some function of the number. */
  datatype Context = Context(
    isNullCipher: bool,
    recordVersion: nat,
    scheme: Scheme,
    variableNonceLen: nat,
    nonceInRecord: bool,
    randomNonce: bool,
    omitLengthInAd: bool,
    omitVersionInAd: bool,
    omitAd: bool,
    maxTagLen: nat,
    random: nat -> seq<byte>,
    rawSeal: RawAead,
    rawOpen: RawAead)
  {
    /** What Create sets up, and what it relies on: an AEAD whose length goes into the additional data
        has a fixed overhead. */
    ghost predicate Ok() {
      && recordVersion < 0x1_0000 && MaxOverhead() <= EVP_MAX_OVERHEAD
      && scheme.Ok() && (scheme.xorFixedNonce ==> !nonceInRecord)
      && (randomNonce ==> nonceInRecord) && (!randomNonce ==> variableNonceLen == 8)
      && (forall n: nat :: |random(n)| == variableNonceLen)
      && forall nonce, ad, p :: rawSeal(nonce, ad, p).Some? ==>
           var c := rawSeal(nonce, ad, p).value;
           |p| <= |c| <= |p| + maxTagLen && (!omitLengthInAd ==> |c| == |p| + maxTagLen)
    }

    function ExplicitNonceLen(): nat {
      if !isNullCipher && nonceInRecord then variableNonceLen else 0
    }

    /** MaxOverhead: the explicit nonce and the longest tag; nothing for the null cipher. */
    function MaxOverhead(): nat {
      ExplicitNonceLen() + if isNullCipher then 0 else maxTagLen
    }

    /** GetAdditionalData. */
    function AdditionalData(typ: byte, version: nat, number: nat, plainLen: nat): seq<byte> {
      if omitAd then []
      else
        NumberBytes(number) + [typ]
        + (if omitVersionInAd then [] else U16(version % 0x1_0000))
        + (if omitLengthInAd then [] else U16(plainLen % 0x1_0000))
    }

    /** The nonce with this variable part; the record is refused where there is none. */
    function NonceFor(variable: seq<byte>): Option<seq<byte>> {
      if scheme.Ok() && (scheme.xorFixedNonce ==> |variable| == 8) then Some(Nonce(scheme, variable)) else None
    }

    /** SSLAEADContext::Seal into room for maxOut bytes. */
    function Seal(maxOut: nat, typ: byte, version: nat, number: nat, plain: seq<byte>): (r: Option<seq<byte>>)
      ensures r.Some? ==> |r.value| <= maxOut
    {
      if isNullCipher then (if |plain| <= maxOut then Some(plain) else None)
      else
        var variable := if randomNonce then random(number) else NumberBytes(number);
        match NonceFor(variable)
        case None => None
        case Some(nonce) =>
          match rawSeal(nonce, AdditionalData(typ, version, number, |plain|), plain)
          case None => None
          case Some(c) =>
            var out := (if nonceInRecord then variable else []) + c;
            if |out| <= maxOut then Some(out) else None
    }

    /** SSLAEADContext::Open. */
    function Open(typ: byte, version: nat, number: nat, cipher: seq<byte>): Option<seq<byte>> {
      if isNullCipher then Some(cipher)
      else if !omitLengthInAd && |cipher| < MaxOverhead() then None
      else if nonceInRecord && |cipher| < variableNonceLen then None
      else
        var plainLen := if omitLengthInAd then 0 else |cipher| - MaxOverhead();
        var explicit := if nonceInRecord then variableNonceLen else 0;
        match NonceFor(if nonceInRecord then cipher[..explicit] else NumberBytes(number))
        case None => None
        case Some(nonce) => rawOpen(nonce, AdditionalData(typ, version, number, plainLen), cipher[explicit..])
    }
  }

  /** The eight bytes passed as the sequence number. */
  function NumberBytes(number: nat): (b: seq<byte>)
    ensures |b| == 8
  {
    U16(number / 0x1_0000_0000_0000 % 0x1_0000) + U48(number % 0x1_0000_0000_0000)
  }

  /** Two contexts that one key block gave: set up alike, with an AEAD that opens what it sealed under
      the same nonce and additional data. */
  ghost predicate Paired(writer: Context, reader: Context) {
    && writer.Ok()
    && reader == writer.(random := reader.random, rawSeal := reader.rawSeal, rawOpen := reader.rawOpen)
    && forall nonce, ad, p :: writer.rawSeal(nonce, ad, p).Some? ==>
         reader.rawOpen(nonce, ad, writer.rawSeal(nonce, ad, p).value) == Some(p)
  }

  /** The reading context takes the explicit nonce off again, comes to the same nonce and additional
      data, and so opens what the writing context sealed. */
  lemma OpenOfSeal(writer: Context, reader: Context, maxOut: nat, typ: byte, version: nat, number: nat, plain: seq<byte>)
    requires Paired(writer, reader)
    requires writer.Seal(maxOut, typ, version, number, plain).Some?
    ensures reader.Open(typ, version, number, writer.Seal(maxOut, typ, version, number, plain).value) == Some(plain)
  {
    if !writer.isNullCipher {
      hide Nonce, NumberBytes, Context.AdditionalData;
      var variable := if writer.randomNonce then writer.random(number) else NumberBytes(number);
      var nonce := writer.NonceFor(variable).value;
      var c := writer.rawSeal(nonce, writer.AdditionalData(typ, version, number, |plain|), plain).value;
      var explicit := if writer.nonceInRecord then variable else [];
      assert (explicit + c)[|explicit|..] == c && (explicit + c)[..|explicit|] == explicit;
      SameAdditionalData(writer, reader, typ, version, number, |plain|);
    }
  }

  /** Where the length is left out of the additional data, it does not matter what Open takes it for. */
  lemma SameAdditionalData(writer: Context, reader: Context, typ: byte, version: nat, number: nat, plainLen: nat)
    requires Paired(writer, reader)
    ensures writer.AdditionalData(typ, version, number, plainLen) ==
            reader.AdditionalData(typ, version, number, if writer.omitLengthInAd then 0 else plainLen)
  {
  }

  /** A sealed body fits the room given and is longer than the plaintext by the explicit nonce and at
      most the longest tag. */
  lemma SealLength(c: Context, maxOut: nat, typ: byte, version: nat, number: nat, plain: seq<byte>)
    requires c.Ok() && c.Seal(maxOut, typ, version, number, plain).Some?
    ensures var out := c.Seal(maxOut, typ, version, number, plain).value;
            |out| <= maxOut && |plain| + c.ExplicitNonceLen() <= |out| <= |plain| + c.MaxOverhead()
  {
    hide Nonce, Context.AdditionalData;
  }

  // ---------- what the AEAD is given ----------

  /** Room for whatever an AEAD that shows its nonce or additional data gives. */
  const ROOM := 64

  /** The context with an AEAD that shows the nonce it is given, or the additional data. */
  function ShowingNonce(c: Context): Context {
    c.(rawSeal := (nonce, ad, p) => Some(nonce))
  }

  function ShowingAd(c: Context): Context {
    c.(rawSeal := (nonce, ad, p) => Some(ad))
  }

  /** Contexts whose nonces come from the record's number: not those of the CBC ciphers. */
  ghost predicate Numbered(c: Context) {
    c.Ok() && !c.isNullCipher && !c.randomNonce
  }

  lemma NumberBytesValue(number: nat)
    requires number < 0x1_0000_0000_0000_0000
    ensures BigEndian(NumberBytes(number)) == number
  {
    var epoch, seqNum := number / 0x1_0000_0000_0000, number % 0x1_0000_0000_0000;
    assert epoch < 0x1_0000 && epoch % 0x1_0000 == epoch && number == 0x1_0000_0000_0000 * epoch + seqNum;
    assert NumberBytes(number) == U16(epoch) + U48(seqNum);
    hide NumberBytes, U16, U48, GetU16, GetU48, BigEndian;
    NumberIsBigEndian(U16(epoch), U48(seqNum));
    U16RoundTrip(epoch);
    U48RoundTrip(seqNum);
  }

  /** What is left of a nonce when the fixed part is XORed out again. */
  function XoredOut(nonce: seq<byte>, fixedNonce: seq<byte>): (b: seq<byte>)
    requires |nonce| == |fixedNonce|
    ensures |b| == |nonce|
  {
    seq(|nonce|, i requires 0 <= i < |nonce| => XorByte(nonce[i], fixedNonce[i]))
  }

  lemma XoredNonce(s: Scheme, variable: seq<byte>)
    requires s.Ok() && s.xorFixedNonce && |variable| == 8
    ensures |Nonce(s, variable)| == |s.fixedNonce|
    ensures XoredOut(Nonce(s, variable), s.fixedNonce) == seq(|s.fixedNonce| - 8, _ => 0) + variable
  {
    var padded := seq(|s.fixedNonce| - 8, _ => 0) + variable;
    forall i | 0 <= i < |s.fixedNonce|
      ensures XorByte(Nonce(s, variable)[i], s.fixedNonce[i]) == padded[i]
    {
      XorCancels(padded[i], s.fixedNonce[i]);
    }
  }

  /** What is given to the AEAD as the nonce, and put in front as the explicit nonce. */
  lemma ShownNonce(c: Context, typ: byte, version: nat, number: nat, plain: seq<byte>)
    requires Numbered(c)
    ensures var out, n := ShowingNonce(c).Seal(ROOM, typ, version, number, plain), c.ExplicitNonceLen();
            && out.Some? && n <= |out.value| <= 28 && out.value[n..] == Nonce(c.scheme, NumberBytes(number))
            && (if c.nonceInRecord then n == 8 && out.value[..n] == NumberBytes(number) else n == 0)
  {
    var b := NumberBytes(number);
    var nonce := Nonce(c.scheme, b);
    assert |nonce| <= 20;
    hide Nonce, NumberBytes, Context.AdditionalData;
    assert (b + nonce)[8..] == nonce && (b + nonce)[..8] == b && ([] + nonce)[0..] == nonce;
  }

  /** The nonce that a record's number gives: the fixed part followed by the eight big-endian bytes of
      the number, or the bytes that give the zero-padded number once the fixed part is XORed out. An
      explicit nonce is the number as well. */
  lemma NonceLayout(c: Context, typ: byte, version: nat, number: nat, plain: seq<byte>)
    requires Numbered(c) && number < 0x1_0000_0000_0000_0000
    ensures var out, n, f := ShowingNonce(c).Seal(ROOM, typ, version, number, plain), c.ExplicitNonceLen(), c.scheme.fixedNonce;
            && out.Some? && (if c.nonceInRecord then n == 8 <= |out.value| && BigEndian(out.value[..n]) == number else n == 0)
            && var nonce := out.value[n..];
               if c.scheme.xorFixedNonce then
                 && |nonce| == |f| && XoredOut(nonce, f)[..|f| - 8] == seq(|f| - 8, _ => 0)
                 && BigEndian(XoredOut(nonce, f)[|f| - 8..]) == number
               else f <= nonce && |nonce| == |f| + 8 && BigEndian(nonce[|f|..]) == number
  {
    var b, f := NumberBytes(number), c.scheme.fixedNonce;
    NumberBytesValue(number);
    ShownNonce(c, typ, version, number, plain);
    if c.scheme.xorFixedNonce {
      XoredNonce(c.scheme, b);
    } else {
      assert Nonce(c.scheme, b) == f + b;
    }
    hide Nonce, NumberBytes, XoredOut, BigEndian, Context.Seal, Context.AdditionalData;
    if c.scheme.xorFixedNonce {
      assert XoredOut(Nonce(c.scheme, b), f)[|f| - 8..] == b;
    } else {
      assert (f + b)[|f|..] == b;
    }
  }

  /** Of these additional data: the number, the type, and, unless left out, version and length. */
  ghost predicate AdSays(c: Context, ad: seq<byte>, typ: byte, version: nat, number: nat, plainLen: nat) {
    if c.omitAd then ad == []
    else
      var v, l := if c.omitVersionInAd then 0 else 2, if c.omitLengthInAd then 0 else 2;
      && |ad| == 9 + v + l && BigEndian(ad[..8]) == number && ad[8] == typ
      && (!c.omitVersionInAd ==> BigEndian(ad[9..11]) == version)
      && (!c.omitLengthInAd ==> BigEndian(ad[9 + v..]) == plainLen)
  }

  lemma AdBytes(c: Context, typ: byte, version: nat, number: nat, plainLen: nat)
    requires number < 0x1_0000_0000_0000_0000 && version < 0x1_0000 && plainLen < 0x1_0000
    ensures AdSays(c, c.AdditionalData(typ, version, number, plainLen), typ, version, number, plainLen)
  {
    assert version % 0x1_0000 == version && plainLen % 0x1_0000 == plainLen;
    hide NumberBytes, BigEndian, U16;
    NumberBytesValue(number);
    U16IsBigEndian(version);
    U16IsBigEndian(plainLen);
    if !c.omitAd {
      var v, l := if c.omitVersionInAd then [] else U16(version), if c.omitLengthInAd then [] else U16(plainLen);
      FourParts(NumberBytes(number), [typ], v, l);
    }
  }

  lemma FourParts(a: seq<byte>, b: seq<byte>, c: seq<byte>, d: seq<byte>)
    ensures var s, i, j := a + b + c + d, |a| + |b|, |a| + |b| + |c|;
            s[..|a|] == a && s[|a|..i] == b && s[i..j] == c && s[j..] == d
  {
  }

  /** What is given to the AEAD as additional data. */
  lemma AdLayout(c: Context, typ: byte, version: nat, number: nat, plain: seq<byte>)
    requires Numbered(c) && number < 0x1_0000_0000_0000_0000 && version < 0x1_0000 && |plain| < 0x1_0000
    ensures var out, n := ShowingAd(c).Seal(ROOM, typ, version, number, plain), c.ExplicitNonceLen();
            out.Some? && n <= |out.value| && AdSays(c, out.value[n..], typ, version, number, |plain|)
  {
    var b, ad := NumberBytes(number), c.AdditionalData(typ, version, number, |plain|);
    AdBytes(c, typ, version, number, |plain|);
    assert |ad| <= 13;
    hide Nonce, NumberBytes, AdSays, Context.AdditionalData;
    assert (b + ad)[8..] == ad && ([] + ad)[0..] == ad;
  }

  /** Any context's AEAD is given just the nonce and the additional data that are shown that way, and
      what it makes of the plaintext goes behind the explicit nonce. */
  lemma SealedUnder(c: Context, maxOut: nat, typ: byte, version: nat, number: nat, plain: seq<byte>)
    requires Numbered(c) && c.Seal(maxOut, typ, version, number, plain).Some?
    ensures var n := c.ExplicitNonceLen();
            var showNonce, showAd := ShowingNonce(c).Seal(ROOM, typ, version, number, plain), ShowingAd(c).Seal(ROOM, typ, version, number, plain);
            && showNonce.Some? && showAd.Some? && n <= |showNonce.value| && n <= |showAd.value|
            && var body := c.rawSeal(showNonce.value[n..], showAd.value[n..], plain);
               body.Some? && c.Seal(maxOut, typ, version, number, plain) == Some(showNonce.value[..n] + body.value)
  {
    var b := NumberBytes(number);
    var ad := c.AdditionalData(typ, version, number, |plain|);
    assert |ad| <= 13;
    assert c.NonceFor(b).Some? && |c.NonceFor(b).value| <= 20;
    hide Nonce, NumberBytes, Context.AdditionalData;
    var nonce := c.NonceFor(b).value;
    assert (b + nonce)[8..] == nonce && (b + nonce)[..8] == b && ([] + nonce)[0..] == nonce;
    assert (b + ad)[8..] == ad && ([] + ad)[0..] == ad;
  }
}
