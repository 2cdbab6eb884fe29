/** The nonces that SSLAEADContext::SealScatter derives from record numbers: the fixed part is put
    before the number, or XORed into it. */
module AeadNonce {
  import opened Options
  import opened Words
  import opened DtlsWire
  import opened Aead
  import opened DtlsSend

  /** The eight bytes that dtls_seal_record passes as the sequence number. */
  function SeqNumBytes(epoch: nat, seqNum: nat): (b: seq<byte>)
    requires epoch < 0x1_0000 && seqNum < 0x1_0000_0000_0000
    ensures |b| == 8
  {
    U16(epoch) + U48(seqNum)
  }

  /** The nonce assembly of SealScatter, into a buffer of EVP_AEAD_MAX_NONCE_LENGTH bytes. */
  method AssembleNonce(s: Scheme, seqNum: seq<byte>, nonce: array<byte>) returns (nonceLen: nat)
    requires s.Ok() && |seqNum| == 8 && |s.fixedNonce| + 8 <= nonce.Length
    modifies nonce
    ensures nonceLen <= nonce.Length && nonce[..nonceLen] == Nonce(s, seqNum)
  {
    if s.xorFixedNonce {
      nonceLen := |s.fixedNonce| - 8;
      forall i | 0 <= i < nonceLen {
        nonce[i] := 0;
      }
    } else {
      nonceLen := |s.fixedNonce|;
      forall i | 0 <= i < nonceLen {
        nonce[i] := s.fixedNonce[i];
      }
    }
    forall i | 0 <= i < 8 {
      nonce[nonceLen + i] := seqNum[i];
    }
    nonceLen := nonceLen + 8;
    if s.xorFixedNonce {
      ghost var padded := seq(|s.fixedNonce| - 8, _ => 0) + seqNum;
      assert nonce[..nonceLen] == padded;
      for i := 0 to nonceLen
        invariant forall j :: 0 <= j < i ==> nonce[j] == XorByte(padded[j], s.fixedNonce[j])
        invariant forall j :: i <= j < nonceLen ==> nonce[j] == padded[j]
      {
        nonce[i] := XorByte(nonce[i], s.fixedNonce[i]);
      }
    }
  }

  lemma SeqNumBytesInjective(e1: nat, s1: nat, e2: nat, s2: nat)
    requires e1 < 0x1_0000 && s1 < 0x1_0000_0000_0000 && e2 < 0x1_0000 && s2 < 0x1_0000_0000_0000
    requires SeqNumBytes(e1, s1) == SeqNumBytes(e2, s2)
    ensures e1 == e2 && s1 == s2
  {
    assert U16(e1) == SeqNumBytes(e1, s1)[..2] && U48(s1) == SeqNumBytes(e1, s1)[2..];
    assert U16(e2) == SeqNumBytes(e2, s2)[..2] && U48(s2) == SeqNumBytes(e2, s2)[2..];
    U16RoundTrip(e1);
    U16RoundTrip(e2);
    U48RoundTrip(s1);
    U48RoundTrip(s2);
  }

  /** They are the bytes of the 64-bit number that a context seals under. */
  lemma SeqNumBytesAreNumber(h: RecordHeader)
    requires h.Fits()
    ensures NumberBytes(h.Number()) == SeqNumBytes(h.epoch, h.seqNum)
  {
    RemainderUnique(h.Number(), 0x1_0000_0000_0000, h.epoch, h.seqNum);
  }

  /** Either construction is injective in the number. */
  lemma NonceInjective(s: Scheme, a: seq<byte>, b: seq<byte>)
    requires s.Ok() && |a| == 8 && |b| == 8 && Nonce(s, a) == Nonce(s, b)
    ensures a == b
  {
    var n := |s.fixedNonce|;
    forall i | 0 <= i < 8
      ensures a[i] == b[i]
    {
      if s.xorFixedNonce {
        var k := s.fixedNonce[n - 8 + i];
        assert Nonce(s, a)[n - 8 + i] == XorByte(a[i], k);
        assert Nonce(s, b)[n - 8 + i] == XorByte(b[i], k);
        XorCancels(a[i], k);
        XorCancels(b[i], k);
      } else {
        assert Nonce(s, a)[n + i] == a[i] && Nonce(s, b)[n + i] == b[i];
      }
    }
  }

  // ---------- the nonces of a run ----------

  /** A record of a run: the state it was sealed in, and the call. */
  datatype Sealing = Sealing(w: WriteSide, op: WriteOp) {
    ghost predicate Ok() {
      op.SealOp? && Allowed(w, op)
    }

    function Context(): Context
      requires op.SealOp?
    {
      WriteAead(w, op.previous)
    }

    ghost function Header(): (h: RecordHeader)
      requires Ok()
    {
      NextHeader(w, op.typ, op.previous)
    }
  }

  /** The records of a run, up to its first wrap, overflow or sealing failure. */
  ghost function Sealings(w: WriteSide, ops: seq<WriteOp>): (s: seq<Sealing>)
    ensures forall i :: 0 <= i < |s| ==> s[i].Ok()
    decreases |ops|
  {
    if ops == [] || !Allowed(w, ops[0]) then []
    else (if ops[0].SealOp? then [Sealing(w, ops[0])] else []) + Sealings(After(w, ops[0]), ops[1..])
  }

  lemma {:induction false} SealingsEmit(w: WriteSide, ops: seq<WriteOp>)
    ensures |Sealings(w, ops)| == |Emitted(w, ops)|
    ensures forall i :: 0 <= i < |Sealings(w, ops)| ==>
              Emitted(w, ops)[i] == (Sealings(w, ops)[i].Header().epoch, Sealings(w, ops)[i].Header().seqNum)
    decreases |ops|
  {
    hide Allowed, After;
    if ops != [] && Allowed(w, ops[0]) {
      SealingsEmit(After(w, ops[0]), ops[1..]);
    }
  }

  /** dtls_seal_record with an AEAD that shows the nonce it is given. */
  function ShowingNonces(w: WriteSide): WriteSide {
    w.(aead := ShowingNonce(w.aead), lastAead := ShowingNonce(w.lastAead))
  }

  const RECORD_ROOM := RT_HEADER_LENGTH + ROOM

  /** What SealRecord's context gives its AEAD as the nonce of the record: it stands behind the header
      and the explicit nonce when the AEAD shows it. */
  ghost predicate UsesNonce(s: Sealing, nonce: seq<byte>)
    requires s.Ok()
  {
    var shown := SealRecord(ShowingNonces(s.w), RECORD_ROOM, s.op.typ, s.op.plain, s.op.previous);
    var n := RT_HEADER_LENGTH + s.Context().ExplicitNonceLen();
    shown.Some? && n <= |shown.value.record| && shown.value.record[n..] == nonce
  }

  /** The nonce is the fixed part with the 64-bit number of epoch and sequence number. */
  lemma SealingNonce(s: Sealing)
    requires s.Ok() && Numbered(s.Context()) && s.Header().Fits() && s.Header().seqNum != 0xffff_ffff_ffff
    ensures UsesNonce(s, Nonce(s.Context().scheme, SeqNumBytes(s.Header().epoch, s.Header().seqNum)))
  {
    var c, h := s.Context(), s.Header();
    SeqNumBytesAreNumber(h);
    ShownNonce(c, h.typ, h.version, h.Number(), s.op.plain);
    ShownRecord(s);
    hide Nonce, NumberBytes, SeqNumBytes, SealRecord, Context.Seal, RecordBytes, Sealing.Ok, NextHeader, Numbered;
    RecordBody(h, ShowingNonce(c).Seal(ROOM, h.typ, h.version, h.Number(), s.op.plain).value);
  }

  lemma ShownRecord(s: Sealing)
    requires s.Ok() && s.Header().Fits() && s.Header().seqNum != 0xffff_ffff_ffff
    ensures var h := s.Header();
            var out := ShowingNonce(s.Context()).Seal(ROOM, h.typ, h.version, h.Number(), s.op.plain);
            out.Some? && |out.value| <= 28 ==>
              var r := SealRecord(ShowingNonces(s.w), RECORD_ROOM, s.op.typ, s.op.plain, s.op.previous);
              r.Some? && r.value.record == RecordBytes(h, out.value)
  {
    hide Context.Seal, RecordBytes;
  }

  lemma RecordBody(h: RecordHeader, body: seq<byte>)
    requires h.Fits() && |body| < 0x1_0000
    ensures forall n :: 0 <= n <= |body| ==> RecordBytes(h, body)[RT_HEADER_LENGTH + n..] == body[n..]
  {
    var header := [h.typ] + U16(h.version) + U16(h.epoch) + U48(h.seqNum) + U16(|body|);
    assert RecordBytes(h, body) == header + body && |header| == RT_HEADER_LENGTH;
  }

  lemma SealingFits(s: Sealing)
    requires s.Ok()
    ensures s.Header().Fits() && s.Header().seqNum != 0xffff_ffff_ffff
  {
  }

  /** In any run of seals and write-state changes, two records never use the same nonce under one fixed
      part, whatever else their contexts are: as long as the nonces come from numbers. */
  lemma NoncesNeverRepeat(w: WriteSide, ops: seq<WriteOp>, i: nat, j: nat, nonce1: seq<byte>, nonce2: seq<byte>)
    requires WriteSideFits(w) && i < j < |Sealings(w, ops)|
    requires var s, t := Sealings(w, ops)[i], Sealings(w, ops)[j];
             && Numbered(s.Context()) && Numbered(t.Context()) && s.Context().scheme == t.Context().scheme
             && UsesNonce(s, nonce1) && UsesNonce(t, nonce2)
    ensures nonce1 != nonce2
  {
    var s, t := Sealings(w, ops)[i], Sealings(w, ops)[j];
    SealingFits(s);
    SealingFits(t);
    SealingNonce(s);
    SealingNonce(t);
    hide UsesNonce, Nonce, SeqNumBytes, Allowed;
    SealingsEmit(w, ops);
    RecordNumbersNeverRepeat(w, {}, ops);
    OneNonce(s, nonce1, Nonce(s.Context().scheme, SeqNumBytes(s.Header().epoch, s.Header().seqNum)));
    OneNonce(t, nonce2, Nonce(t.Context().scheme, SeqNumBytes(t.Header().epoch, t.Header().seqNum)));
    if nonce1 == nonce2 {
      NonceInjective(s.Context().scheme, SeqNumBytes(s.Header().epoch, s.Header().seqNum), SeqNumBytes(t.Header().epoch, t.Header().seqNum));
      SeqNumBytesInjective(s.Header().epoch, s.Header().seqNum, t.Header().epoch, t.Header().seqNum);
    }
  }

  lemma OneNonce(s: Sealing, a: seq<byte>, b: seq<byte>)
    requires s.Ok() && UsesNonce(s, a) && UsesNonce(s, b)
    ensures a == b
  {
  }

  // ---------- one context an epoch ----------

  lemma KeysAfter(w: WriteSide, op: WriteOp)
    requires Allowed(w, op)
    ensures var v := After(w, op);
            if op.SealOp? then SameKeys(v, w) && Sealing(w, op).Header().epoch + (if op.previous then 1 else 0) == w.epoch
            else v.epoch == w.epoch + 1 && v.lastAead == w.aead
  {
    hide RecordBytes, Context.Seal;
  }

  lemma SealedHere(w: WriteSide, op: WriteOp)
    requires op.SealOp? && Allowed(w, op)
    ensures var s := Sealing(w, op); s.Context() == if s.Header().epoch == w.epoch then w.aead else w.lastAead
  {
    hide SealRecord;
  }

  lemma SealingsStep(w: WriteSide, ops: seq<WriteOp>, i: nat)
    requires i < |Sealings(w, ops)|
    ensures ops != [] && Allowed(w, ops[0])
    ensures var here := if ops[0].SealOp? then 1 else 0;
            var later := Sealings(After(w, ops[0]), ops[1..]);
            |Sealings(w, ops)| == here + |later| && Sealings(w, ops)[i] == if i < here then Sealing(w, ops[0]) else later[i - here]
  {
    hide Allowed, After;
  }

  /** The records that a run seals from w on, in the epochs that w has keys for, use those keys. */
  lemma {:induction false} SealedUnderEpochKeys(w: WriteSide, ops: seq<WriteOp>, i: nat)
    requires i < |Sealings(w, ops)|
    ensures var s := Sealings(w, ops)[i];
            && s.Header().epoch + 1 >= w.epoch
            && (s.Header().epoch == w.epoch ==> s.Context() == w.aead)
            && (s.Header().epoch + 1 == w.epoch ==> s.Context() == w.lastAead)
    decreases |ops|
  {
    hide Sealings, Allowed, After, NextHeader, WriteAead, Sealing.Header, Sealing.Context, Sealing.Ok;
    SealingsStep(w, ops, i);
    KeysAfter(w, ops[0]);
    if ops[0].SealOp? {
      SealedHere(w, ops[0]);
    }
    var here := if ops[0].SealOp? then 1 else 0;
    if i >= here {
      SealedUnderEpochKeys(After(w, ops[0]), ops[1..], i - here);
    }
  }

  /** Records of one epoch are sealed under one context, before and after the keys change, so what was
      said of one fixed part holds of every epoch. */
  lemma {:induction false} OneContextAnEpoch(w: WriteSide, ops: seq<WriteOp>, i: nat, j: nat)
    requires i < j < |Sealings(w, ops)| && Sealings(w, ops)[i].Header().epoch == Sealings(w, ops)[j].Header().epoch
    ensures Sealings(w, ops)[i].Context() == Sealings(w, ops)[j].Context()
    decreases |ops|
  {
    hide Sealings, Allowed, After, NextHeader, WriteAead, Sealing.Header, Sealing.Context, Sealing.Ok;
    SealingsStep(w, ops, i);
    SealingsStep(w, ops, j);
    var here := if ops[0].SealOp? then 1 else 0;
    if i >= here {
      OneContextAnEpoch(After(w, ops[0]), ops[1..], i - here, j - here);
    } else {
      SealedUnderEpochKeys(w, ops, i);
      SealedUnderEpochKeys(w, ops, j);
      KeysAfter(w, ops[0]);
    }
  }
}
