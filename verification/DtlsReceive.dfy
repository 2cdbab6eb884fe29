/** The receiving half of the DTLS handshake transport: opening records, the seven-slot ring of
    partial messages, and the release of complete messages in order. */
module DtlsReceive {
  import opened Options
  import opened Words
  import opened DtlsWire
  import opened ReplayWindow
  import opened Reassembly
  import opened Aead

  const MAX_HANDSHAKE_FLIGHT := 7
  const RT_CHANGE_CIPHER_SPEC: byte := 20
  const RT_ALERT: byte := 21
  const RT_HANDSHAKE: byte := 22
  const RT_APPLICATION_DATA: byte := 23
  const MT_CCS: byte := 1
  const RT_MAX_PLAIN_LENGTH := 16384
  const RT_MAX_ENCRYPTED_LENGTH := 16384 + 256 + 64
  const DTLS1_VERSION_MAJOR := 0xfe

  datatype OpenStatus = Success | Discard | Partial | CloseNotify | Error

  // ---------- dtls_open_record ----------

  datatype Opened = Opened(status: OpenStatus, typ: byte, body: seq<byte>, consumed: nat, window: Window)

  /** dtls_open_record. `closed` says whether a close_notify was already read; `onAlert` is what the
      alert handler returns for an alert record. */
  function OpenRecord(epoch: nat, window: Window, aead: Context, closed: bool, onAlert: OpenStatus, input: seq<byte>): (o: Opened)
    ensures o.consumed <= |input|
  {
    if closed then Opened(CloseNotify, 0, [], 0, window)
    else if input == [] then Opened(Partial, 0, [], 0, window)
    else
      match ParseRecord(input)
      case None => Opened(Discard, 0, [], |input|, window)
      case Some(r) =>
        var versionOk :=
          if aead.isNullCipher then r.hdr.version / 0x100 == DTLS1_VERSION_MAJOR
          else r.hdr.version == aead.recordVersion;
        if |r.body| > RT_MAX_ENCRYPTED_LENGTH || !versionOk then Opened(Discard, 0, [], |input|, window)
        else
          var consumed := |input| - |r.rest|;
          if r.hdr.epoch != epoch || ShouldDiscard(window, r.hdr.Number()) then
            Opened(Discard, 0, [], consumed, window)
          else
            match aead.Open(r.hdr.typ, r.hdr.version, r.hdr.Number(), r.body)
            case None => Opened(Discard, 0, [], consumed, window)
            case Some(plain) =>
              if |plain| > RT_MAX_PLAIN_LENGTH then Opened(Error, 0, [], consumed, window)
              else
                var recorded := Record(window, r.hdr.Number());
                if r.hdr.typ == RT_ALERT then Opened(onAlert, r.hdr.typ, plain, consumed, recorded)
                else Opened(Success, r.hdr.typ, plain, consumed, recorded)
  }

  /** The record is whole, of this version and epoch, has a number that is neither recorded nor 64 or
      more behind the newest, and authenticates. */
  ghost predicate Acceptable(epoch: nat, recorded: set<nat>, newest: nat, aead: Context, input: seq<byte>) {
    && ParseRecord(input).Some?
    && var r := ParseRecord(input).value;
       && |r.body| <= RT_MAX_ENCRYPTED_LENGTH && r.hdr.epoch == epoch
       && (if aead.isNullCipher then r.hdr.version / 0x100 == DTLS1_VERSION_MAJOR else r.hdr.version == aead.recordVersion)
       && r.hdr.Number() !in recorded && newest < r.hdr.Number() + WINDOW_SIZE
       && var plain := aead.Open(r.hdr.typ, r.hdr.version, r.hdr.Number(), r.body);
          plain.Some? && |plain.value| <= RT_MAX_PLAIN_LENGTH
  }

  /** Every acceptable record is accepted and recorded; no other is accepted, or moves the window. */
  lemma AcceptedIffAcceptable(epoch: nat, window: Window, recorded: set<nat>, aead: Context, closed: bool, onAlert: OpenStatus, input: seq<byte>)
    requires Refines(window, recorded)
    ensures var o := OpenRecord(epoch, window, aead, closed, onAlert, input);
            if !closed && Acceptable(epoch, recorded, window.maxSeqNum, aead, input) then
              var r := ParseRecord(input).value;
              && Refines(o.window, recorded + {r.hdr.Number()})
              && aead.Open(r.hdr.typ, r.hdr.version, r.hdr.Number(), r.body) == Some(o.body) && o.typ == r.hdr.typ
              && o.status == if r.hdr.typ == RT_ALERT then onAlert else Success
            else o.window == window && o.status != Success
  {
    if ParseRecord(input).Some? {
      var number := ParseRecord(input).value.hdr.Number();
      hide ParseRecord, Record, ShouldDiscard, Refines;
      ShouldDiscardExact(window, recorded, number);
      RecordRefines(window, recorded, number);
    }
  }

  /** What is left of a packet after a record of it: nothing when the record is cut short, too long or of
      another version, since then no length in it is to be trusted; else what follows the record, whether
      it was accepted or not. */
  lemma PacketGoesOn(epoch: nat, window: Window, aead: Context, onAlert: OpenStatus, input: seq<byte>)
    requires input != []
    ensures var o := OpenRecord(epoch, window, aead, false, onAlert, input);
            var sound := ParseRecord(input).Some? && |ParseRecord(input).value.body| <= RT_MAX_ENCRYPTED_LENGTH
                         && (if aead.isNullCipher then ParseRecord(input).value.hdr.version / 0x100 == DTLS1_VERSION_MAJOR
                             else ParseRecord(input).value.hdr.version == aead.recordVersion);
            && input[o.consumed..] == (if sound then ParseRecord(input).value.rest else [])
            && (!sound ==> o == Opened(Discard, 0, [], |input|, window))
  {
    if ParseRecord(input).Some? {
      assert input[|input| - |ParseRecord(input).value.rest|..] == ParseRecord(input).value.rest;
    }
    hide ParseRecord, Record, ShouldDiscard, Context.Open;
  }

  /** The numbers of the records accepted when these inputs are opened in turn in one epoch. */
  ghost function NumbersAccepted(epoch: nat, window: Window, aead: Context, onAlert: OpenStatus, inputs: seq<seq<byte>>): seq<nat>
    decreases |inputs|
  {
    if inputs == [] then []
    else
      var o := OpenRecord(epoch, window, aead, false, onAlert, inputs[0]);
      (if o.status == Success then [ParseRecord(inputs[0]).value.hdr.Number()] else [])
      + NumbersAccepted(epoch, o.window, aead, onAlert, inputs[1..])
  }

  /** Whatever arrives, no number is accepted twice in an epoch. */
  lemma {:induction false} NumbersAcceptedOnce(epoch: nat, window: Window, recorded: set<nat>, aead: Context, onAlert: OpenStatus, inputs: seq<seq<byte>>)
    requires Refines(window, recorded)
    ensures DistinctFrom(NumbersAccepted(epoch, window, aead, onAlert, inputs), recorded)
    decreases |inputs|
  {
    if inputs != [] {
      var input, rest := inputs[0], inputs[1..];
      AcceptedIffAcceptable(epoch, window, recorded, aead, false, onAlert, input);
      var o := OpenRecord(epoch, window, aead, false, onAlert, input);
      if Acceptable(epoch, recorded, window.maxSeqNum, aead, input) {
        var number := ParseRecord(input).value.hdr.Number();
        hide ParseRecord, Refines, OpenRecord, DistinctFrom;
        NumbersAcceptedOnce(epoch, o.window, recorded + {number}, aead, onAlert, rest);
        var later := NumbersAccepted(epoch, o.window, aead, onAlert, rest);
        DistinctCons(number, later, recorded);
        DistinctFewer(number, later, recorded);
        assert [] + later == later;
      } else {
        NumbersAcceptedOnce(epoch, window, recorded, aead, onAlert, rest);
      }
    }
  }

  // ---------- the ring of partial messages ----------

  type Slot = Option<PartialMessage>

  datatype Ring = Ring(readSeq: nat, slots: seq<Slot>)

  const EMPTY_RING := Ring(0, [None, None, None, None, None, None, None])

  /** Every occupied slot i holds a message of the window [readSeq, readSeq + 7) whose number is
      i modulo 7; numbers never reach 2^16. */
  ghost predicate RingInv(r: Ring) {
    && r.readSeq < 0x1_0000
    && |r.slots| == MAX_HANDSHAKE_FLIGHT
    && forall i :: 0 <= i < MAX_HANDSHAKE_FLIGHT && r.slots[i].Some? ==> SlotInv(r.readSeq, i, r.slots[i].value)
  }

  ghost predicate SlotInv(readSeq: nat, i: nat, p: PartialMessage) {
    && p.seqNum % MAX_HANDSHAKE_FLIGHT == i
    && readSeq <= p.seqNum < readSeq + MAX_HANDSHAKE_FLIGHT
    && p.seqNum < 0x1_0000
    && p.msgLen < 0x100_0000
    && forall k :: k in p.got ==> k < p.msgLen
  }

  /** dtls1_get_incoming_message: the partial message a header belongs to, None on failure. */
  function Incoming(r: Ring, h: FragmentHeader): Slot
    requires |r.slots| == MAX_HANDSHAKE_FLIGHT
  {
    if h.seqNum < r.readSeq || h.seqNum - r.readSeq >= MAX_HANDSHAKE_FLIGHT then None
    else
      match r.slots[h.seqNum % MAX_HANDSHAKE_FLIGHT]
      case Some(p) => if p.typ != h.typ || p.msgLen != h.msgLen then None else Some(p)
      case None => Some(PartialMessage(h.typ, h.seqNum, h.msgLen, map[]))
  }

  /** One iteration of the loop of dtls1_open_handshake; None when it returns an error. */
  ghost function ProcessFragment(r: Ring, epoch: nat, maxLen: nat, f: Fragment): Option<Ring>
    requires |r.slots| == MAX_HANDSHAKE_FLIGHT
  {
    var h := f.hdr;
    if h.fragOff > h.msgLen || h.fragOff + h.fragLen > h.msgLen || h.msgLen > maxLen then None
    else if epoch == 1 && h.seqNum != r.readSeq then None
    else if h.seqNum < r.readSeq || h.seqNum > r.readSeq + MAX_HANDSHAKE_FLIGHT then Some(r)
    else
      match Incoming(r, h)
      case None => None
      case Some(p) =>
        var p' := if p.Complete() then p else p.(got := p.got + Chunk(h.fragOff, f.body));
        Some(r.(slots := r.slots[h.seqNum % MAX_HANDSHAKE_FLIGHT := Some(p')]))
  }

  /** The whole loop over one handshake record: the ring reached and whether no error occurred. */
  ghost function ProcessRecord(r: Ring, epoch: nat, maxLen: nat, cbs: seq<byte>): (Ring, bool)
    requires |r.slots| == MAX_HANDSHAKE_FLIGHT
    decreases |cbs|
  {
    if cbs == [] then (r, true)
    else
      match ParseFragment(cbs)
      case None => (r, false)
      case Some(f) =>
        match ProcessFragment(r, epoch, maxLen, f)
        case None => (r, false)
        case Some(r') => ProcessRecord(r', epoch, maxLen, f.rest)
  }

  ghost predicate CurrentComplete(r: Ring)
    requires |r.slots| == MAX_HANDSHAKE_FLIGHT
  {
    var slot := r.slots[r.readSeq % MAX_HANDSHAKE_FLIGHT];
    slot.Some? && slot.value.Complete()
  }

  /** dtls1_next_message on the ring; the 16-bit counter wraps. */
  function Advance(r: Ring): Ring
    requires |r.slots| == MAX_HANDSHAKE_FLIGHT
  {
    Ring((r.readSeq + 1) % 0x1_0000, r.slots[r.readSeq % MAX_HANDSHAKE_FLIGHT := None])
  }

  /** The bytes handed to the handshake: the rebuilt header, then the body. */
  ghost function Raw(p: PartialMessage): seq<byte>
    requires p.Complete() && WholeHeader(p.typ, p.msgLen, p.seqNum).Fits()
  {
    HeaderBytes(WholeHeader(p.typ, p.msgLen, p.seqNum)) + seq(p.msgLen, k requires 0 <= k < p.msgLen => p.got[k])
  }

  lemma SevenConsecutive(lo: nat, a: nat, b: nat)
    requires lo <= a < lo + 7 && lo <= b < lo + 7 && a % 7 == b % 7
    ensures a == b
  {
  }

  /** The assertion in dtls1_get_incoming_message never fires. */
  lemma SlotHoldsItsNumber(r: Ring, seqNum: nat)
    requires RingInv(r)
    requires r.readSeq <= seqNum < r.readSeq + MAX_HANDSHAKE_FLIGHT
    requires r.slots[seqNum % MAX_HANDSHAKE_FLIGHT].Some?
    ensures r.slots[seqNum % MAX_HANDSHAKE_FLIGHT].value.seqNum == seqNum
  {
    SevenConsecutive(r.readSeq, seqNum, r.slots[seqNum % MAX_HANDSHAKE_FLIGHT].value.seqNum);
  }

  /** Exactly which fragments are an error. Numbers below the window, and those more than seven ahead,
      are ignored; the number seven ahead passes the filter and is then refused. */
  lemma FragmentRefusedIff(r: Ring, epoch: nat, maxLen: nat, f: Fragment)
    requires RingInv(r)
    ensures var h := f.hdr;
            var slot := r.slots[h.seqNum % MAX_HANDSHAKE_FLIGHT];
            ProcessFragment(r, epoch, maxLen, f) == None <==>
              || h.fragOff + h.fragLen > h.msgLen || h.msgLen > maxLen
              || (epoch == 1 && h.seqNum != r.readSeq)
              || h.seqNum == r.readSeq + MAX_HANDSHAKE_FLIGHT
              || (r.readSeq <= h.seqNum < r.readSeq + MAX_HANDSHAKE_FLIGHT && slot.Some?
                  && (slot.value.typ != h.typ || slot.value.msgLen != h.msgLen))
  {
  }

  lemma ProcessFragmentKeepsRing(r: Ring, epoch: nat, maxLen: nat, f: Fragment)
    requires RingInv(r) && f.hdr.Fits() && |f.body| == f.hdr.fragLen
    ensures ProcessFragment(r, epoch, maxLen, f).Some? ==>
              var r' := ProcessFragment(r, epoch, maxLen, f).value;
              RingInv(r') && r'.readSeq == r.readSeq
  {
    var h := f.hdr;
    if ProcessFragment(r, epoch, maxLen, f).Some? && r.readSeq <= h.seqNum < r.readSeq + MAX_HANDSHAKE_FLIGHT {
      var i := h.seqNum % MAX_HANDSHAKE_FLIGHT;
      if r.slots[i].Some? {
        SlotHoldsItsNumber(r, h.seqNum);
      }
    }
  }

  lemma {:induction false} ProcessRecordKeepsRing(r: Ring, epoch: nat, maxLen: nat, cbs: seq<byte>)
    requires RingInv(r)
    ensures var (r', ok) := ProcessRecord(r, epoch, maxLen, cbs);
            RingInv(r') && r'.readSeq == r.readSeq
    decreases |cbs|
  {
    if cbs != [] && ParseFragment(cbs).Some? {
      var f := ParseFragment(cbs).value;
      AssembledOfParse(cbs);
      ProcessFragmentKeepsRing(r, epoch, maxLen, f);
      if ProcessFragment(r, epoch, maxLen, f).Some? {
        ProcessRecordKeepsRing(ProcessFragment(r, epoch, maxLen, f).value, epoch, maxLen, f.rest);
      }
    }
  }

  /** A message that is complete stays so, and as it is, whatever arrives. */
  lemma {:induction false} CompleteStays(r: Ring, epoch: nat, maxLen: nat, cbs: seq<byte>)
    requires RingInv(r) && CurrentComplete(r)
    ensures var r', i := ProcessRecord(r, epoch, maxLen, cbs).0, r.readSeq % MAX_HANDSHAKE_FLIGHT;
            RingInv(r') && r'.slots[i] == r.slots[i] && CurrentComplete(r')
    decreases |cbs|
  {
    hide ParseFragment;
    ProcessRecordKeepsRing(r, epoch, maxLen, cbs);
    if cbs != [] && ParseFragment(cbs).Some? {
      var f := ParseFragment(cbs).value;
      AssembledOfParse(cbs);
      if ProcessFragment(r, epoch, maxLen, f).Some? {
        ProcessFragmentKeepsRing(r, epoch, maxLen, f);
        CompleteSlotStays(r, epoch, maxLen, f);
        CompleteStays(ProcessFragment(r, epoch, maxLen, f).value, epoch, maxLen, f.rest);
      }
    }
  }

  lemma CompleteSlotStays(r: Ring, epoch: nat, maxLen: nat, f: Fragment)
    requires RingInv(r) && CurrentComplete(r) && ProcessFragment(r, epoch, maxLen, f).Some?
    ensures var i := r.readSeq % MAX_HANDSHAKE_FLIGHT;
            ProcessFragment(r, epoch, maxLen, f).value.slots[i] == r.slots[i]
  {
  }

  /** Releasing a message keeps the ring, also when the counter wraps: 7 does not divide 2^16, but
      at the wrap the window holds the single number 2^16 - 1, so every other slot is empty. */
  lemma AdvanceKeepsRing(r: Ring)
    requires RingInv(r) && CurrentComplete(r)
    ensures RingInv(Advance(r))
    ensures r.readSeq == 0xffff ==> Advance(r) == EMPTY_RING
  {
    var r' := Advance(r);
    var cur := r.readSeq % MAX_HANDSHAKE_FLIGHT;
    forall i | 0 <= i < MAX_HANDSHAKE_FLIGHT && r'.slots[i].Some?
      ensures SlotInv(r'.readSeq, i, r'.slots[i].value) && r.readSeq != 0xffff
    {
      assert i != cur && r'.slots[i] == r.slots[i];
      assert SlotInv(r.readSeq, i, r.slots[i].value);
    }
  }

  // ---------- the read side as a whole ----------

  datatype ReadSide = ReadSide(epoch: nat, window: Window, ring: Ring, hasChangeCipherSpec: bool, hasMessage: bool)

  const INITIAL_READ_SIDE := ReadSide(0, EMPTY_WINDOW, EMPTY_RING, false, false)

  /** What dtls1_open_handshake does with an opened record of each type. */
  ghost function OnRecord(s: ReadSide, aead: Context, maxLen: nat, typ: byte, body: seq<byte>): (ReadSide, OpenStatus)
    requires |s.ring.slots| == MAX_HANDSHAKE_FLIGHT
  {
    if typ == RT_APPLICATION_DATA then (s, if aead.isNullCipher then Error else Discard)
    else if typ == RT_CHANGE_CIPHER_SPEC then
      if !aead.isNullCipher || body != [MT_CCS] then (s, Error)
      else (s.(hasChangeCipherSpec := true), Success)
    else if typ == RT_HANDSHAKE then
      var (ring', ok) := ProcessRecord(s.ring, s.epoch, maxLen, body);
      (s.(ring := ring'), if ok then Success else Error)
    else (s, Error)
  }

  /** dtls1_open_handshake: the state after it, its result and the bytes consumed. */
  ghost function OpenHandshake(s: ReadSide, aead: Context, maxLen: nat, closed: bool, onAlert: OpenStatus, input: seq<byte>)
    : (ReadSide, OpenStatus, nat)
    requires |s.ring.slots| == MAX_HANDSHAKE_FLIGHT
  {
    var o := OpenRecord(s.epoch, s.window, aead, closed, onAlert, input);
    var s1 := s.(window := o.window);
    if o.status != Success then (s1, o.status, o.consumed)
    else
      var (s2, status) := OnRecord(s1, aead, maxLen, o.typ, o.body);
      (s2, status, o.consumed)
  }

  /** dtls_has_unprocessed_handshake_data. */
  predicate HasUnprocessed(s: ReadSide)
    requires |s.ring.slots| == MAX_HANDSHAKE_FLIGHT
  {
    s.hasChangeCipherSpec ||
    exists i :: 0 <= i < MAX_HANDSHAKE_FLIGHT && s.ring.slots[i].Some?
      && !(s.hasMessage && i == s.ring.readSeq % MAX_HANDSHAKE_FLIGHT)
  }
}
