/** What the packets of a flight do to a receiver that they reach: record by record, up to the message
    that it waits for. */
module DtlsArrival {
  import opened Options
  import opened Words
  import opened DtlsWire
  import opened ReplayWindow
  import opened Reassembly
  import opened Aead
  import opened DtlsReceive
  import opened DtlsSend
  import opened DtlsDelivery
  import opened DtlsProgress

  // ---------- one record ----------

  /** dtls_open_record takes this version from a record. */
  predicate VersionFits(reader: Context, version: nat) {
    version / 0x100 == DTLS1_VERSION_MAJOR && (!reader.isNullCipher ==> version == reader.recordVersion)
  }

  /** The next sequence number that is used in an epoch, the current one or the one before it. */
  function NextSeq(w: WriteSide, epoch: nat): nat {
    if epoch == w.epoch then w.writeSeq else w.lastWriteSeq
  }

  /** dtls_seal_record: a record that parses to the next header of the chosen epoch and to the plaintext
      sealed under that number, whatever follows it; only that epoch's counter moves, by one. At the
      last 48-bit number it fails. */
  lemma SealedRecord(w: WriteSide, maxOut: nat, typ: byte, plain: seq<byte>, previous: bool, rest: seq<byte>)
    requires WriteSideFits(w) && (previous ==> w.epoch >= 1)
    ensures NextHeader(w, typ, previous).seqNum == 0xffff_ffff_ffff ==> SealRecord(w, maxOut, typ, plain, previous) == None
    ensures SealRecord(w, maxOut, typ, plain, previous).Some? ==>
              var s, h := SealRecord(w, maxOut, typ, plain, previous).value, NextHeader(w, typ, previous);
              var cipher := WriteAead(w, previous).Seal(maxOut - RT_HEADER_LENGTH, typ, h.version, h.Number(), plain);
              && cipher.Some? && |s.record| == RT_HEADER_LENGTH + |cipher.value|
              && ParseRecord(s.record + rest) == Some(ParsedRecord(h, cipher.value, rest))
              && s.w == if previous then w.(lastWriteSeq := w.lastWriteSeq + 1) else w.(writeSeq := w.writeSeq + 1)
  {
    hide RecordBytes, ParseRecord, Context.Seal;
    if SealRecord(w, maxOut, typ, plain, previous).Some? {
      var h := NextHeader(w, typ, previous);
      ParseOfRecord(h, WriteAead(w, previous).Seal(maxOut - RT_HEADER_LENGTH, typ, h.version, h.Number(), plain).value, rest);
    }
  }

  /** A record that is no longer than allowed, of a fitting version: dropped alone in another epoch, and
      accepted in its own when its number is new and it opens to a plaintext of allowed length. */
  lemma OpenParsed(epoch: nat, window: Window, recorded: set<nat>, reader: Context, onAlert: OpenStatus, input: seq<byte>, p: ParsedRecord, plain: seq<byte>)
    requires ParseRecord(input) == Some(p) && input != [] && VersionFits(reader, p.hdr.version) && |p.body| <= RT_MAX_ENCRYPTED_LENGTH
    requires Refines(window, recorded) && |plain| <= RT_MAX_PLAIN_LENGTH
    requires p.hdr.epoch == epoch ==>
               && p.hdr.Number() !in recorded && window.maxSeqNum < p.hdr.Number() + WINDOW_SIZE
               && reader.Open(p.hdr.typ, p.hdr.version, p.hdr.Number(), p.body) == Some(plain)
    ensures OpenRecord(epoch, window, reader, false, onAlert, input) ==
            if p.hdr.epoch == epoch then
              Opened(if p.hdr.typ == RT_ALERT then onAlert else Success, p.hdr.typ, plain, |input| - |p.rest|, Record(window, p.hdr.Number()))
            else Opened(Discard, 0, [], |input| - |p.rest|, window)
  {
    hide ParseRecord, Record, ShouldDiscard, Context.Open, Refines;
    ShouldDiscardExact(window, recorded, p.hdr.Number());
  }

  /** A sealed record that comes to a reader of its epoch is accepted, with its plaintext, if its number
      is new to the window; a reader of another epoch drops just that record. */
  lemma SealedRecordAccepted(keys: KeySchedule, w: WriteSide, maxOut: nat, typ: byte, plain: seq<byte>, previous: bool, rest: seq<byte>,
                             epoch: nat, window: Window, recorded: set<nat>, onAlert: OpenStatus)
    requires keys.Ok() && KeysInstalled(keys, w) && WriteSideFits(w) && (previous ==> w.epoch >= 1)
    requires SealRecord(w, maxOut, typ, plain, previous).Some? && |plain| <= RT_MAX_PLAIN_LENGTH
    requires VersionFits(keys.reader(epoch), w.aead.recordVersion) && Refines(window, recorded)
    requires var h := NextHeader(w, typ, previous);
             h.epoch == epoch ==> h.Number() !in recorded && window.maxSeqNum < h.Number() + WINDOW_SIZE
    ensures var h, record := NextHeader(w, typ, previous), SealRecord(w, maxOut, typ, plain, previous).value.record;
            OpenRecord(epoch, window, keys.reader(epoch), false, onAlert, record + rest) ==
            if h.epoch == epoch then
              Opened(if typ == RT_ALERT then onAlert else Success, typ, plain, |record|, Record(window, h.Number()))
            else Opened(Discard, 0, [], |record|, window)
  {
    hide SealRecord, ParseRecord, Record, Context.Seal, Context.Open, OpenRecord, Refines;
    SealedRecord(w, maxOut, typ, plain, previous, rest);
    var h, s := NextHeader(w, typ, previous), SealRecord(w, maxOut, typ, plain, previous).value;
    var cipher := WriteAead(w, previous).Seal(maxOut - RT_HEADER_LENGTH, typ, h.version, h.Number(), plain).value;
    ContextsOk(keys, h.epoch);
    SealLength(keys.writer(h.epoch), maxOut - RT_HEADER_LENGTH, typ, h.version, h.Number(), plain);
    OpenOfSeal(keys.writer(h.epoch), keys.reader(h.epoch), maxOut - RT_HEADER_LENGTH, typ, h.version, h.Number(), plain);
    OpenParsed(epoch, window, recorded, keys.reader(epoch), onAlert, s.record + rest, ParsedRecord(h, cipher, rest), plain);
  }

  lemma ContextsOk(keys: KeySchedule, epoch: nat)
    requires keys.Ok()
    ensures keys.writer(epoch).Ok() && keys.writer(epoch).MaxOverhead() <= EVP_MAX_OVERHEAD
    ensures keys.writer(epoch).recordVersion == keys.reader(epoch).recordVersion
  {
    assert Paired(keys.writer(epoch), keys.reader(epoch));
  }

  /** No counter has gone back. */
  predicate NoLower(w: WriteSide, w': WriteSide) {
    w'.epoch == w.epoch && w'.writeSeq >= w.writeSeq && w'.lastWriteSeq >= w.lastWriteSeq
  }

  /** What seal_next_message puts into a record: ChangeCipherSpec, or exactly the fragment of the message
      from `offset` on, under the next number of the message's epoch. */
  function PieceBytes(msg: OutMessage, offset: nat, len: nat): seq<byte>
    requires WellFormed(msg) && offset + len <= BodyLen(msg)
  {
    if msg.isCcs then [MT_CCS]
    else
      WholeFacts(msg.data);
      FragmentBytes(ParseFragment(msg.data).value, offset, len)
  }

  lemma SealedPiece(w: WriteSide, maxOut: nat, msg: OutMessage, offset: nat)
    requires WriteSideFits(w) && WellFormed(msg) && offset <= BodyLen(msg)
    ensures var r := SealNextMessage(w, maxOut, msg, offset);
            r.SealSuccess? || r.PartialSeal? ==>
              && offset + r.len <= BodyLen(msg)
              && (msg.epoch == w.epoch || (w.epoch >= 1 && msg.epoch == w.epoch - 1))
              && var previous, typ := msg.epoch != w.epoch, if msg.isCcs then RT_CHANGE_CIPHER_SPEC else RT_HANDSHAKE;
                 var plain := PieceBytes(msg, offset, r.len);
                 && NextHeader(w, typ, previous).epoch == msg.epoch && NextHeader(w, typ, previous).seqNum == NextSeq(w, msg.epoch)
                 && SealRecord(w, maxOut, typ, plain, previous) == Some(Sealed(r.w, r.record))
                 && |plain| <= maxOut
                 && NextSeq(r.w, msg.epoch) == NextSeq(w, msg.epoch) + 1
                 && NoLower(w, r.w)
  {
    hide ParseFragment, IsWhole, RecordBytes, ParseRecord, HeaderBytes, Context.Seal, SealRecord;
    var r := SealNextMessage(w, maxOut, msg, offset);
    if r.SealSuccess? || r.PartialSeal? {
      PieceOfMessage(w, maxOut, msg, offset);
      var typ := if msg.isCcs then RT_CHANGE_CIPHER_SPEC else RT_HANDSHAKE;
      SealedRecord(w, maxOut, typ, PieceBytes(msg, offset, r.len), msg.epoch != w.epoch, []);
    }
  }

  /** The fragment parses back to the message's header and the bytes it is about. */
  lemma PieceParses(msg: OutMessage, offset: nat, len: nat)
    requires WellFormed(msg) && !msg.isCcs && offset + len <= BodyLen(msg)
    ensures var q := ParseFragment(msg.data).value;
            && q.hdr.Fits() && |q.body| == q.hdr.msgLen
            && ParseFragment(PieceBytes(msg, offset, len)) ==
               Some(Fragment(q.hdr.(fragOff := offset, fragLen := len), q.body[offset..offset + len], []))
  {
    WholeFacts(msg.data);
    var q := ParseFragment(msg.data).value;
    var h := q.hdr.(fragOff := offset, fragLen := len);
    assert PieceBytes(msg, offset, len) == HeaderBytes(h) + q.body[offset..offset + len] + [];
    ParseOfAssembled(h, q.body[offset..offset + len], []);
  }

  // ---------- a receiver that a flight comes to ----------

  /** Everything the window has seen lies below the next number of its epoch, so that what the sender
      seals next is new: so it is for a fresh window, and for one that has only seen older records. */
  ghost predicate Behind(s: ReadSide, recorded: set<nat>, w: WriteSide) {
    var next := 0x1_0000_0000_0000 * s.epoch + NextSeq(w, s.epoch);
    Refines(s.window, recorded) && s.window.maxSeqNum <= next && forall n :: n in recorded ==> n < next
  }

  /** What the receiver needs of a flight message: of its own epoch it takes ChangeCipherSpec only in the
      clear, and a handshake message only if it is not longer than allowed and not too far ahead, nor,
      in epoch 1, another than the one waited for. */
  ghost predicate Welcome(keys: KeySchedule, queue: seq<seq<byte>>, epoch: nat, readSeq: nat, maxLen: nat, msg: OutMessage)
    requires QueueOk(queue)
  {
    && WellFormed(msg) && FromQueue(queue, msg)
    && (msg.epoch == epoch ==>
          if msg.isCcs then keys.reader(epoch).isNullCipher
          else
            var h := ParseFragment(msg.data).value.hdr;
            h.seqNum < readSeq + MAX_HANDSHAKE_FLIGHT && h.msgLen <= maxLen && (epoch == 1 ==> h.seqNum == readSeq))
  }

  /** Of message n, len bytes long, the receiver holds at least these bytes, if anything was to be held. */
  ghost predicate Covers(r: Ring, n: nat, len: nat, some: bool, has: iset<nat>)
    requires |r.slots| == MAX_HANDSHAKE_FLIGHT
  {
    some ==> SlotOf(r, n).Some? && SlotOf(r, n).value.msgLen == len && forall k: nat :: k in has ==> k in SlotOf(r, n).value.got
  }

  /** An accepted fragment takes nothing away, and one of the message adds its own bytes. */
  lemma FragmentCovers(r: Ring, epoch: nat, maxLen: nat, f: Fragment, n: nat, len: nat, some: bool, has: iset<nat>)
    requires RingInv(r) && f.hdr.Fits() && |f.body| == f.hdr.fragLen && (f.hdr.seqNum == n ==> f.hdr.msgLen == len)
    requires ProcessFragment(r, epoch, maxLen, f).Some? && r.readSeq <= n < r.readSeq + MAX_HANDSHAKE_FLIGHT
    requires SlotOf(r, n).Some? ==> SlotOf(r, n).value.msgLen == len
    requires Covers(r, n, len, some, has) && (!some ==> has == iset{})
    ensures var r' := ProcessFragment(r, epoch, maxLen, f).value;
            && RingInv(r') && Covers(r', n, len, some || f.hdr.seqNum == n, has + iset k: nat | Carries(f, n, k))
  {
    var held := if SlotOf(r, n).Some? then iset k: nat | k in SlotOf(r, n).value.got else iset{};
    assert [f][0] == f;
    FragmentAddsItsBytes(r, epoch, maxLen, f, n, len, SlotOf(r, n).Some?, held);
  }

  /** Byte k is among those from off up to off + len, if this is the message it is asked about. */
  predicate Within(concerned: bool, off: nat, len: nat, k: nat) {
    concerned && off <= k < off + len
  }

  /** The message is the one the receiver waits for. */
  predicate Concerns(msg: OutMessage, epoch: nat, n: nat)
    requires WellFormed(msg)
  {
    msg.epoch == epoch && !msg.isCcs && ParseFragment(msg.data).value.hdr.seqNum == n
  }

  /** The queued message n has len bytes. */
  ghost predicate Awaited(queue: seq<seq<byte>>, n: nat, len: nat)
    requires QueueOk(queue)
  {
    n < |queue| && ParseFragment(queue[n]).value.hdr.msgLen == len
  }

  /** The fragment of a welcome message is accepted, the ring goes on agreeing with the queue, and the
      bytes are there afterwards. */
  lemma PieceProcessed(keys: KeySchedule, queue: seq<seq<byte>>, r: Ring, epoch: nat, maxLen: nat, msg: OutMessage, offset: nat, l: nat,
                       len: nat, some: bool, has: iset<nat>)
    requires QueueOk(queue) && RingAgrees(queue, r) && Welcome(keys, queue, epoch, r.readSeq, maxLen, msg)
    requires msg.epoch == epoch && !msg.isCcs && offset + l <= BodyLen(msg) && Awaited(queue, r.readSeq, len)
    requires Covers(r, r.readSeq, len, some, has) && (!some ==> has == iset{})
    ensures var (r', ok) := ProcessRecord(r, epoch, maxLen, PieceBytes(msg, offset, l));
            var c := Concerns(msg, epoch, r.readSeq);
            && ok && RingAgrees(queue, r') && r'.readSeq == r.readSeq
            && Covers(r', r.readSeq, len, some || c, has + iset k: nat | Within(c, offset, l, k))
  {
    var plain := PieceBytes(msg, offset, l);
    PieceParses(msg, offset, l);
    WholeFacts(msg.data);
    FragmentIsHonest(queue, msg.data, offset, l);
    HonestFragmentKeepsRing(queue, r, epoch, maxLen, plain);
    RingInvOfAgrees(queue, r);
    ProcessRecordKeepsRing(r, epoch, maxLen, plain);
    var f := ParseFragment(plain).value;
    FragmentTaken(keys, queue, r, epoch, maxLen, msg, f, len);
    hide ParseFragment, PieceBytes, IsWhole, ProcessFragment, RingInv, RingAgrees;
    FragmentCovers(r, epoch, maxLen, f, r.readSeq, len, some, has);
    var c := Concerns(msg, epoch, r.readSeq);
    assert (iset k: nat | Carries(f, r.readSeq, k)) == iset k: nat | Within(c, offset, l, k);
    assert ProcessRecord(r, epoch, maxLen, plain) == (ProcessFragment(r, epoch, maxLen, f).value, true);
  }

  /** Why the fragment is not refused. */
  lemma FragmentTaken(keys: KeySchedule, queue: seq<seq<byte>>, r: Ring, epoch: nat, maxLen: nat, msg: OutMessage, f: Fragment, len: nat)
    requires QueueOk(queue) && RingAgrees(queue, r) && Welcome(keys, queue, epoch, r.readSeq, maxLen, msg)
    requires msg.epoch == epoch && !msg.isCcs && Awaited(queue, r.readSeq, len)
    requires var q := ParseFragment(msg.data).value;
             f.hdr == q.hdr.(fragOff := f.hdr.fragOff, fragLen := f.hdr.fragLen) && f.hdr.fragOff + f.hdr.fragLen <= q.hdr.msgLen
    ensures ProcessFragment(r, epoch, maxLen, f).Some?
    ensures f.hdr.seqNum == r.readSeq ==> f.hdr.msgLen == len
    ensures SlotOf(r, r.readSeq).Some? ==> SlotOf(r, r.readSeq).value.msgLen == len
  {
    var h := f.hdr;
    hide ParseFragment, ProcessFragment, IsWhole;
    FragmentRefusedIff(r, epoch, maxLen, f);
    if SlotOf(r, r.readSeq).Some? {
      SlotHoldsItsNumber(r, r.readSeq);
    }
    if r.readSeq <= h.seqNum < r.readSeq + MAX_HANDSHAKE_FLIGHT && r.slots[h.seqNum % MAX_HANDSHAKE_FLIGHT].Some? {
      SlotHoldsItsNumber(r, h.seqNum);
    }
  }

  /** What is known of the receiver while it reads a flight. */
  ghost predicate Reading(queue: seq<seq<byte>>, s: ReadSide, recorded: set<nat>, w: WriteSide, len: nat, some: bool, has: iset<nat>)
    requires QueueOk(queue)
  {
    && RingAgrees(queue, s.ring) && Behind(s, recorded, w) && Awaited(queue, s.ring.readSeq, len)
    && Covers(s.ring, s.ring.readSeq, len, some, has) && (!some ==> has == iset{})
  }

  /** The numbers recorded after a record of this epoch has been read. */
  function RecordedAfter(recorded: set<nat>, s: ReadSide, w: WriteSide, own: bool): set<nat> {
    if own then recorded + {0x1_0000_0000_0000 * s.epoch + NextSeq(w, s.epoch)} else recorded
  }

  lemma StaysBehind(s: ReadSide, s': ReadSide, recorded: set<nat>, w: WriteSide, w': WriteSide, own: bool)
    requires Behind(s, recorded, w) && s'.epoch == s.epoch && NextSeq(w', s.epoch) >= NextSeq(w, s.epoch)
    requires s'.window == if own then Record(s.window, 0x1_0000_0000_0000 * s.epoch + NextSeq(w, s.epoch)) else s.window
    requires own ==> NextSeq(w', s.epoch) == NextSeq(w, s.epoch) + 1
    ensures Behind(s', RecordedAfter(recorded, s, w, own), w')
  {
    RecordRefines(s.window, recorded, 0x1_0000_0000_0000 * s.epoch + NextSeq(w, s.epoch));
  }

  /** What an opened record of a flight does to the receiver. */
  lemma RecordDispatched(s: ReadSide, aead: Context, maxLen: nat, input: seq<byte>, o: Opened, own: bool, isCcs: bool, ring: Ring)
    requires |s.ring.slots| == MAX_HANDSHAKE_FLIGHT && OpenRecord(s.epoch, s.window, aead, false, Error, input) == o
    requires !own ==> o.status == Discard && ring == s.ring
    requires own ==> o.status == Success && o.typ == if isCcs then RT_CHANGE_CIPHER_SPEC else RT_HANDSHAKE
    requires own && isCcs ==> aead.isNullCipher && o.body == [MT_CCS] && ring == s.ring
    requires own && !isCcs ==> ProcessRecord(s.ring, s.epoch, maxLen, o.body) == (ring, true)
    ensures var (s', status, consumed) := OpenHandshake(s, aead, maxLen, false, Error, input);
            && s'.window == o.window && s'.ring == ring && s'.epoch == s.epoch
            && status != Error && consumed == o.consumed
  {
    hide OpenRecord, ProcessRecord;
  }

  lemma NumberIsNew(s: ReadSide, recorded: set<nat>, w: WriteSide, h: RecordHeader)
    requires Behind(s, recorded, w) && h.seqNum == NextSeq(w, h.epoch)
    ensures Refines(s.window, recorded)
    ensures h.epoch == s.epoch ==>
              && h.Number() == 0x1_0000_0000_0000 * s.epoch + NextSeq(w, s.epoch)
              && h.Number() !in recorded && s.window.maxSeqNum < h.Number() + WINDOW_SIZE
  {
    hide Refines;
  }

  /** What dtls_open_record makes of it. */
  lemma RecordOpened(keys: KeySchedule, w: WriteSide, maxOut: nat, msg: OutMessage, offset: nat, rest: seq<byte>, s: ReadSide, recorded: set<nat>)
    requires keys.Ok() && KeysInstalled(keys, w) && WriteSideFits(w) && maxOut <= RT_MAX_PLAIN_LENGTH
    requires WellFormed(msg) && offset <= BodyLen(msg) && Behind(s, recorded, w)
    requires VersionFits(keys.reader(s.epoch), w.aead.recordVersion)
    requires var r := SealNextMessage(w, maxOut, msg, offset); r.SealSuccess? || r.PartialSeal?
    ensures var r := SealNextMessage(w, maxOut, msg, offset);
            && offset + r.len <= BodyLen(msg)
            && OpenRecord(s.epoch, s.window, keys.reader(s.epoch), false, Error, r.record + rest) ==
               if msg.epoch == s.epoch then
                 Opened(Success, if msg.isCcs then RT_CHANGE_CIPHER_SPEC else RT_HANDSHAKE, PieceBytes(msg, offset, r.len), |r.record|,
                        Record(s.window, 0x1_0000_0000_0000 * s.epoch + NextSeq(w, s.epoch)))
               else Opened(Discard, 0, [], |r.record|, s.window)
  {
    hide SealNextMessage, SealRecord, OpenRecord, PieceBytes, ParseFragment, IsWhole, Record, RecordBytes, NextHeader, NextSeq,
         WellFormed, BodyLen, VersionFits, Behind, KeysInstalled, WriteSideFits;
    SealedPiece(w, maxOut, msg, offset);
    var r := SealNextMessage(w, maxOut, msg, offset);
    var typ, plain := if msg.isCcs then RT_CHANGE_CIPHER_SPEC else RT_HANDSHAKE, PieceBytes(msg, offset, r.len);
    NumberIsNew(s, recorded, w, NextHeader(w, typ, msg.epoch != w.epoch));
    SealedRecordAccepted(keys, w, maxOut, typ, plain, msg.epoch != w.epoch, rest, s.epoch, s.window, recorded, Error);
  }

  /** What a sealed record that is neither a handshake record nor an alert does to a receiver of its
      epoch: application data are passed over under keys (they may overtake Finished) and an error in the
      clear; ChangeCipherSpec is an error under keys, and noted in the clear; anything else is an error.
      Nothing else of the receiver changes than the window. */
  lemma OtherRecordArrives(keys: KeySchedule, w: WriteSide, maxOut: nat, typ: byte, plain: seq<byte>, previous: bool, rest: seq<byte>,
                           s: ReadSide, recorded: set<nat>, maxLen: nat)
    requires keys.Ok() && KeysInstalled(keys, w) && WriteSideFits(w) && (previous ==> w.epoch >= 1)
    requires SealRecord(w, maxOut, typ, plain, previous).Some? && |plain| <= RT_MAX_PLAIN_LENGTH
    requires typ != RT_HANDSHAKE && typ != RT_ALERT && NextHeader(w, typ, previous).epoch == s.epoch
    requires VersionFits(keys.reader(s.epoch), w.aead.recordVersion) && Behind(s, recorded, w) && RingInv(s.ring)
    requires NextHeader(w, typ, previous).seqNum == NextSeq(w, s.epoch)
    ensures var (s', status, consumed) :=
              OpenHandshake(s, keys.reader(s.epoch), maxLen, false, Error, SealRecord(w, maxOut, typ, plain, previous).value.record + rest);
            var clear := keys.reader(s.epoch).isNullCipher;
            var noted := typ == RT_CHANGE_CIPHER_SPEC && clear && plain == [MT_CCS];
            && consumed == |SealRecord(w, maxOut, typ, plain, previous).value.record|
            && status == (if noted then Success else if typ == RT_APPLICATION_DATA && !clear then Discard else Error)
            && s' == s.(window := s'.window, hasChangeCipherSpec := s.hasChangeCipherSpec || noted)
  {
    hide SealRecord, OpenRecord, Record, Refines, KeysInstalled, VersionFits;
    NumberIsNew(s, recorded, w, NextHeader(w, typ, previous));
    SealedRecordAccepted(keys, w, maxOut, typ, plain, previous, rest, s.epoch, s.window, recorded, Error);
  }

  /** The receiver reads one record of a flight. */
  lemma RecordArrives(keys: KeySchedule, queue: seq<seq<byte>>, w: WriteSide, maxOut: nat, msg: OutMessage, offset: nat, rest: seq<byte>,
                      s: ReadSide, recorded: set<nat>, maxLen: nat, len: nat, some: bool, has: iset<nat>)
    requires keys.Ok() && KeysInstalled(keys, w) && WriteSideFits(w) && QueueOk(queue) && maxOut <= RT_MAX_PLAIN_LENGTH
    requires Welcome(keys, queue, s.epoch, s.ring.readSeq, maxLen, msg) && offset <= BodyLen(msg)
    requires VersionFits(keys.reader(s.epoch), w.aead.recordVersion) && Reading(queue, s, recorded, w, len, some, has)
    requires var r := SealNextMessage(w, maxOut, msg, offset); r.SealSuccess? || r.PartialSeal?
    ensures var r := SealNextMessage(w, maxOut, msg, offset);
            var c := Concerns(msg, s.epoch, s.ring.readSeq);
            var (s', status, consumed) := OpenHandshake(s, keys.reader(s.epoch), maxLen, false, Error, r.record + rest);
            && status != Error && consumed == |r.record| && s'.epoch == s.epoch && s'.ring.readSeq == s.ring.readSeq
            && Reading(queue, s', RecordedAfter(recorded, s, w, msg.epoch == s.epoch), r.w, len,
                       some || c, has + iset k: nat | Within(c, offset, r.len, k))
  {
    SealedPiece(w, maxOut, msg, offset);
    RecordOpened(keys, w, maxOut, msg, offset, rest, s, recorded);
    var r := SealNextMessage(w, maxOut, msg, offset);
    var own, aead := msg.epoch == s.epoch, keys.reader(s.epoch);
    hide SealNextMessage, OpenRecord, PieceBytes, Record, ProcessRecord, OpenHandshake, Concerns, RingAgrees, Behind, Covers;
    var o := OpenRecord(s.epoch, s.window, aead, false, Error, r.record + rest);
    var ring := s.ring;
    if own && !msg.isCcs {
      PieceProcessed(keys, queue, s.ring, s.epoch, maxLen, msg, offset, r.len, len, some, has);
      ring := ProcessRecord(s.ring, s.epoch, maxLen, o.body).0;
    } else {
      NotConcerned(msg, s.epoch, s.ring.readSeq, offset, r.len, has);
    }
    RecordDispatched(s, aead, maxLen, r.record + rest, o, own, msg.isCcs, ring);
    var s' := OpenHandshake(s, aead, maxLen, false, Error, r.record + rest).0;
    StaysBehind(s, s', recorded, w, r.w, own);
  }

  lemma NotConcerned(msg: OutMessage, epoch: nat, n: nat, offset: nat, l: nat, has: iset<nat>)
    requires WellFormed(msg) && (msg.epoch != epoch || msg.isCcs)
    ensures !Concerns(msg, epoch, n) && has + (iset k: nat | Within(Concerns(msg, epoch, n), offset, l, k)) == has
  {
  }

  // ---------- packets and flights ----------

  lemma OpenKeepsRing(s: ReadSide, aead: Context, maxLen: nat, input: seq<byte>)
    requires RingInv(s.ring)
    ensures var (s', _, consumed) := OpenHandshake(s, aead, maxLen, false, Error, input);
            RingInv(s'.ring) && consumed <= |input|
  {
    OpenConsumes(s, aead, maxLen, false, Error, input);
    var o := OpenRecord(s.epoch, s.window, aead, false, Error, input);
    ProcessRecordKeepsRing(s.ring, s.epoch, maxLen, o.body);
    hide OpenRecord, ProcessRecord;
  }

  /** A packet read to its end, one record after the other; None when a record is an error. */
  ghost function ReadPacket(s: ReadSide, aead: Context, maxLen: nat, bytes: seq<byte>): (r: Option<ReadSide>)
    requires RingInv(s.ring)
    ensures r.Some? ==> RingInv(r.value.ring)
    decreases |bytes|
  {
    if bytes == [] then Some(s)
    else
      OpenKeepsRing(s, aead, maxLen, bytes);
      var (s', status, consumed) := OpenHandshake(s, aead, maxLen, false, Error, bytes);
      if status == Error || consumed == 0 then None else ReadPacket(s', aead, maxLen, bytes[consumed..])
  }

  ghost function ReadPackets(s: ReadSide, aead: Context, maxLen: nat, packets: seq<seq<byte>>): (r: Option<ReadSide>)
    requires RingInv(s.ring)
    ensures r.Some? ==> RingInv(r.value.ring)
    decreases |packets|
  {
    if packets == [] then Some(s)
    else
      match ReadPacket(s, aead, maxLen, packets[0])
      case None => None
      case Some(s') => ReadPackets(s', aead, maxLen, packets[1..])
  }

  /** One of the pieces is of message m. */
  predicate Seen(pieces: seq<Piece>, m: nat) {
    pieces != [] && (pieces[0].msg == m || Seen(pieces[1..], m))
  }

  predicate InPiece(p: Piece, m: nat, k: nat) {
    Within(p.msg == m, p.off, p.len, k)
  }

  /** The bytes of message m in the pieces. */
  ghost function BytesOf(pieces: seq<Piece>, m: nat): iset<nat> {
    if pieces == [] then iset{} else (iset k: nat | InPiece(pieces[0], m, k)) + BytesOf(pieces[1..], m)
  }

  lemma {:induction false} PiecesAppend(a: seq<Piece>, b: seq<Piece>, m: nat)
    ensures Seen(a + b, m) <==> Seen(a, m) || Seen(b, m)
    ensures BytesOf(a + b, m) == BytesOf(a, m) + BytesOf(b, m)
  {
    if a == [] {
      assert a + b == b;
    } else {
      assert (a + b)[1..] == a[1..] + b;
      PiecesAppend(a[1..], b, m);
    }
  }

  /** A flight, a receiver that it is fit for, and the message m of it that the receiver waits for. */
  ghost predicate Addressed(keys: KeySchedule, queue: seq<seq<byte>>, messages: seq<OutMessage>, epoch: nat, readSeq: nat, maxLen: nat,
                            version: nat, m: nat)
  {
    && keys.Ok() && QueueOk(queue) && VersionFits(keys.reader(epoch), version)
    && (forall i :: 0 <= i < |messages| ==>
          && Welcome(keys, queue, epoch, readSeq, maxLen, messages[i])
          && (Concerns(messages[i], epoch, readSeq) <==> i == m))
  }

  /** The first record of what is left of a packet. */
  lemma HeadArrives(keys: KeySchedule, queue: seq<seq<byte>>, w: WriteSide, maxOut: nat, messages: seq<OutMessage>, c: Cursor, m: nat, rest: seq<byte>,
                    s: ReadSide, recorded: set<nat>, maxLen: nat, len: nat, some: bool, has: iset<nat>)
      returns (s': ReadSide, recorded': set<nat>)
    requires Addressed(keys, queue, messages, s.epoch, s.ring.readSeq, maxLen, w.aead.recordVersion, m) && maxOut <= RT_MAX_PLAIN_LENGTH
    requires KeysInstalled(keys, w) && WriteSideFits(w) && CursorOk(messages, c) && c.written < |messages|
    requires RingInv(s.ring) && Reading(queue, s, recorded, w, len, some, has)
    requires var r := SealNextMessage(w, maxOut, messages[c.written], c.offset); r.SealSuccess? || r.PartialSeal?
    ensures var r := SealNextMessage(w, maxOut, messages[c.written], c.offset);
            && s'.epoch == s.epoch && s'.ring.readSeq == s.ring.readSeq && RingInv(s'.ring)
            && ReadPacket(s, keys.reader(s.epoch), maxLen, r.record + rest) == ReadPacket(s', keys.reader(s.epoch), maxLen, rest)
            && var piece := Piece(c.written, c.offset, r.len);
               Reading(queue, s', recorded', r.w, len, some || piece.msg == m, has + iset k: nat | InPiece(piece, m, k))
  {
    var msg, aead := messages[c.written], keys.reader(s.epoch);
    var r := SealNextMessage(w, maxOut, msg, c.offset);
    var bytes := r.record + rest;
    RecordArrives(keys, queue, w, maxOut, msg, c.offset, rest, s, recorded, maxLen, len, some, has);
    OpenKeepsRing(s, aead, maxLen, bytes);
    s' := OpenHandshake(s, aead, maxLen, false, Error, bytes).0;
    recorded' := RecordedAfter(recorded, s, w, msg.epoch == s.epoch);
    hide SealNextMessage, OpenHandshake, RingInv, Reading, Concerns;
    assert bytes != [] && bytes[|r.record|..] == rest;
    var piece := Piece(c.written, c.offset, r.len);
    assert (iset k: nat | InPiece(piece, m, k)) == iset k: nat | Within(Concerns(msg, s.epoch, s.ring.readSeq), c.offset, r.len, k);
  }

  lemma {:induction false} PacketArrives(keys: KeySchedule, queue: seq<seq<byte>>, w: WriteSide, maxOut: nat, messages: seq<OutMessage>, c: Cursor, m: nat,
                       s: ReadSide, recorded: set<nat>, maxLen: nat, len: nat, some: bool, has: iset<nat>)
      returns (recorded': set<nat>)
    requires Addressed(keys, queue, messages, s.epoch, s.ring.readSeq, maxLen, w.aead.recordVersion, m) && maxOut <= RT_MAX_PLAIN_LENGTH
    requires KeysInstalled(keys, w) && WriteSideFits(w) && CursorOk(messages, c) && PackMessages(w, maxOut, messages, c).Some?
    requires RingInv(s.ring) && Reading(queue, s, recorded, w, len, some, has)
    ensures var p := PackMessages(w, maxOut, messages, c).value;
            var s' := ReadPacket(s, keys.reader(s.epoch), maxLen, p.bytes);
            && s'.Some? && s'.value.epoch == s.epoch && s'.value.ring.readSeq == s.ring.readSeq
            && Reading(queue, s'.value, recorded', p.w, len, some || Seen(p.pieces, m), has + BytesOf(p.pieces, m))
    decreases |messages| - c.written, 1
  {
    recorded' := recorded;
    PackStep(w, maxOut, messages, c);
    hide PackMessages, SealNextMessage, OpenHandshake, RingInv, Concerns, Welcome, BodyLen, WellFormed, Reading;
    assert has + BytesOf([], m) == has;
    if c.written < |messages| {
      var r := SealNextMessage(w, maxOut, messages[c.written], c.offset);
      if r.PartialSeal? {
        var s1;
        s1, recorded' := HeadArrives(keys, queue, w, maxOut, messages, c, m, [], s, recorded, maxLen, len, some, has);
        OnePiece(Piece(c.written, c.offset, r.len), m);
        assert r.record + [] == r.record;
      } else if r.SealSuccess? {
        recorded' := MorePieces(keys, queue, w, maxOut, messages, c, m, s, recorded, maxLen, len, some, has);
      }
    }
  }

  /** A packet whose first message is finished and that goes on with the next one. */
  lemma {:induction false} MorePieces(keys: KeySchedule, queue: seq<seq<byte>>, w: WriteSide, maxOut: nat, messages: seq<OutMessage>, c: Cursor, m: nat,
                       s: ReadSide, recorded: set<nat>, maxLen: nat, len: nat, some: bool, has: iset<nat>)
      returns (recorded': set<nat>)
    requires Addressed(keys, queue, messages, s.epoch, s.ring.readSeq, maxLen, w.aead.recordVersion, m) && maxOut <= RT_MAX_PLAIN_LENGTH
    requires KeysInstalled(keys, w) && WriteSideFits(w) && CursorOk(messages, c) && PackMessages(w, maxOut, messages, c).Some?
    requires c.written < |messages| && SealNextMessage(w, maxOut, messages[c.written], c.offset).SealSuccess?
    requires RingInv(s.ring) && Reading(queue, s, recorded, w, len, some, has)
    ensures var p := PackMessages(w, maxOut, messages, c).value;
            var s' := ReadPacket(s, keys.reader(s.epoch), maxLen, p.bytes);
            && s'.Some? && s'.value.epoch == s.epoch && s'.value.ring.readSeq == s.ring.readSeq
            && Reading(queue, s'.value, recorded', p.w, len, some || Seen(p.pieces, m), has + BytesOf(p.pieces, m))
    decreases |messages| - c.written, 0
  {
    hide PackMessages, SealNextMessage, OpenHandshake, ReadPacket, RingInv, Concerns, Welcome, BodyLen, WellFormed, Reading;
    var r := SealNextMessage(w, maxOut, messages[c.written], c.offset);
    var piece, next := Piece(c.written, c.offset, r.len), Cursor(c.written + 1, 0);
    PacketCons(w, maxOut, messages, c);
    var tail := PackMessages(r.w, maxOut - |r.record|, messages, next).value;
    var s1, recorded1 := HeadArrives(keys, queue, w, maxOut, messages, c, m, tail.bytes, s, recorded, maxLen, len, some, has);
    var added := iset k: nat | InPiece(piece, m, k);
    recorded' := PacketArrives(keys, queue, r.w, maxOut - |r.record|, messages, next, m, s1, recorded1, maxLen, len,
                               some || piece.msg == m, has + added);
    var p := PackMessages(w, maxOut, messages, c).value;
    assert p.pieces == [piece] + tail.pieces;
    PiecesAppend([piece], tail.pieces, m);
    OnePiece(piece, m);
    assert has + BytesOf(p.pieces, m) == has + added + BytesOf(tail.pieces, m);
  }

  lemma OnePiece(piece: Piece, m: nat)
    ensures Seen([piece], m) <==> piece.msg == m
    ensures BytesOf([piece], m) == iset k: nat | InPiece(piece, m, k)
  {
    assert BytesOf([piece][1..], m) == iset{};
  }

  /** The packets of a flight that were written reach the receiver, in order. Those refused by the BIO were
      sealed anew, under higher numbers. */
  lemma {:induction false} FlightArrives(keys: KeySchedule, queue: seq<seq<byte>>, w: WriteSide, mtu: nat, messages: seq<OutMessage>, c: Cursor,
                       accepted: seq<bool>, m: nat, s: ReadSide, recorded: set<nat>, maxLen: nat, len: nat, some: bool, has: iset<nat>)
      returns (recorded': set<nat>)
    requires Addressed(keys, queue, messages, s.epoch, s.ring.readSeq, maxLen, w.aead.recordVersion, m) && mtu <= RT_MAX_PLAIN_LENGTH
    requires KeysInstalled(keys, w) && WriteSideFits(w) && CursorOk(messages, c)
    requires RunFlight(w, mtu, messages, c, accepted).Some?
    requires RingInv(s.ring) && Reading(queue, s, recorded, w, len, some, has)
    ensures var r := RunFlight(w, mtu, messages, c, accepted).value;
            var s' := ReadPackets(s, keys.reader(s.epoch), maxLen, r.packets);
            && s'.Some? && s'.value.epoch == s.epoch && s'.value.ring.readSeq == s.ring.readSeq
            && Reading(queue, s'.value, recorded', r.w, len, some || Seen(r.pieces, m), has + BytesOf(r.pieces, m))
    decreases |accepted|
  {
    recorded' := recorded;
    hide PackMessages, ReadPacket, RingInv, Concerns, Welcome, BodyLen, WellFormed, Reading, Follow;
    if accepted == [] {
      assert has + BytesOf([], m) == has;
    } else {
      var p := SealNextPacket(w, mtu, messages, c).value;
      PacketTiles(w, mtu, messages, c);
      if accepted[0] {
        recorded' := MorePackets(keys, queue, w, mtu, messages, c, accepted, m, s, recorded, maxLen, len, some, has);
      } else {
        NumbersGrow(w, mtu, messages, c);
        StaysReading(queue, s, recorded, w, p.w, len, some, has);
        recorded' := FlightArrives(keys, queue, p.w, mtu, messages, c, accepted[1..], m, s, recorded, maxLen, len, some, has);
      }
    }
  }

  lemma {:induction false} MorePackets(keys: KeySchedule, queue: seq<seq<byte>>, w: WriteSide, mtu: nat, messages: seq<OutMessage>, c: Cursor,
                       accepted: seq<bool>, m: nat, s: ReadSide, recorded: set<nat>, maxLen: nat, len: nat, some: bool, has: iset<nat>)
      returns (recorded': set<nat>)
    requires Addressed(keys, queue, messages, s.epoch, s.ring.readSeq, maxLen, w.aead.recordVersion, m) && mtu <= RT_MAX_PLAIN_LENGTH
    requires KeysInstalled(keys, w) && WriteSideFits(w) && CursorOk(messages, c)
    requires RunFlight(w, mtu, messages, c, accepted).Some? && accepted != [] && accepted[0]
    requires RingInv(s.ring) && Reading(queue, s, recorded, w, len, some, has)
    ensures var r := RunFlight(w, mtu, messages, c, accepted).value;
            var s' := ReadPackets(s, keys.reader(s.epoch), maxLen, r.packets);
            && s'.Some? && s'.value.epoch == s.epoch && s'.value.ring.readSeq == s.ring.readSeq
            && Reading(queue, s'.value, recorded', r.w, len, some || Seen(r.pieces, m), has + BytesOf(r.pieces, m))
    decreases |accepted|, 0
  {
    hide PackMessages, ReadPacket, RingInv, Concerns, Welcome, BodyLen, WellFormed, Reading, Follow;
    var p := SealNextPacket(w, mtu, messages, c).value;
    PacketTiles(w, mtu, messages, c);
    var tail := RunFlight(p.w, mtu, messages, p.cursor, accepted[1..]).value;
    var recorded1 := PacketArrives(keys, queue, w, mtu, messages, c, m, s, recorded, maxLen, len, some, has);
    var s1 := ReadPacket(s, keys.reader(s.epoch), maxLen, p.bytes).value;
    recorded' := FlightArrives(keys, queue, p.w, mtu, messages, p.cursor, accepted[1..], m, s1, recorded1, maxLen, len,
                               some || Seen(p.pieces, m), has + BytesOf(p.pieces, m));
    PiecesAppend(p.pieces, tail.pieces, m);
    assert has + BytesOf(p.pieces + tail.pieces, m) == has + BytesOf(p.pieces, m) + BytesOf(tail.pieces, m);
    assert ([p.bytes] + tail.packets)[1..] == tail.packets;
  }

  lemma SealGrows(w: WriteSide, maxOut: nat, msg: OutMessage, offset: nat)
    requires WriteSideFits(w) && WellFormed(msg) && offset <= BodyLen(msg)
    ensures var r := SealNextMessage(w, maxOut, msg, offset); r.SealSuccess? || r.PartialSeal? ==> NoLower(w, r.w)
  {
    SealedPiece(w, maxOut, msg, offset);
    hide SealNextMessage, PieceBytes, BodyLen, WellFormed, SealRecord, NextHeader;
  }

  /** A packet that is thrown away uses numbers up. */
  lemma {:induction false} NumbersGrow(w: WriteSide, maxOut: nat, messages: seq<OutMessage>, c: Cursor)
    requires WriteSideFits(w) && CursorOk(messages, c) && PackMessages(w, maxOut, messages, c).Some?
    ensures NoLower(w, PackMessages(w, maxOut, messages, c).value.w)
    decreases |messages| - c.written, 1
  {
    PackStep(w, maxOut, messages, c);
    hide PackMessages, SealNextMessage, BodyLen, WellFormed, Prepend;
    if c.written < |messages| {
      if SealNextMessage(w, maxOut, messages[c.written], c.offset).SealSuccess? {
        NumbersGrowOn(w, maxOut, messages, c);
      } else {
        SealGrows(w, maxOut, messages[c.written], c.offset);
      }
    }
  }

  lemma {:induction false} NumbersGrowOn(w: WriteSide, maxOut: nat, messages: seq<OutMessage>, c: Cursor)
    requires WriteSideFits(w) && CursorOk(messages, c) && c.written < |messages| && PackMessages(w, maxOut, messages, c).Some?
    requires SealNextMessage(w, maxOut, messages[c.written], c.offset).SealSuccess?
    ensures NoLower(w, PackMessages(w, maxOut, messages, c).value.w)
    decreases |messages| - c.written, 0
  {
    hide PackMessages, SealNextMessage, BodyLen, WellFormed, Prepend;
    var r := SealNextMessage(w, maxOut, messages[c.written], c.offset);
    SealGrows(w, maxOut, messages[c.written], c.offset);
    PacketCons(w, maxOut, messages, c);
    NumbersGrow(r.w, maxOut - |r.record|, messages, Cursor(c.written + 1, 0));
  }

  lemma StaysReading(queue: seq<seq<byte>>, s: ReadSide, recorded: set<nat>, w: WriteSide, w': WriteSide, len: nat, some: bool, has: iset<nat>)
    requires QueueOk(queue) && Reading(queue, s, recorded, w, len, some, has) && NextSeq(w', s.epoch) >= NextSeq(w, s.epoch)
    ensures Reading(queue, s, recorded, w', len, some, has)
  {
    hide RingAgrees, Refines;
  }

  /** Pieces that lead past message m have one of it. */
  lemma {:induction false} FollowVisits(messages: seq<OutMessage>, c: Cursor, pieces: seq<Piece>, m: nat)
    requires CursorOk(messages, c) && Follow(messages, c, pieces).Some?
    requires c.written <= m < Follow(messages, c, pieces).value.written
    ensures Seen(pieces, m)
    decreases |pieces|
  {
    var p := pieces[0];
    if p.msg != m {
      var next := if p.off + p.len == BodyLen(messages[p.msg]) then Cursor(c.written + 1, 0)
                  else Cursor(c.written, p.off + p.len);
      FollowVisits(messages, next, pieces[1..], m);
    }
  }

  lemma {:induction false} InBytesOf(pieces: seq<Piece>, m: nat, i: nat, k: nat)
    requires i < |pieces| && InPiece(pieces[i], m, k)
    ensures k in BytesOf(pieces, m)
  {
    if i > 0 {
      InBytesOf(pieces[1..], m, i - 1, k);
    }
  }

  /** A flight that was written to its end, as a successful retransmission does, and whose packets reach
      the receiver makes it complete the message it waits for, which is the one queued: for all MTUs,
      all refusals and resumptions in between, whatever the receiver held before, and also if the window
      has seen earlier records of the epoch. */
  lemma FlightCompletesAwaited(keys: KeySchedule, queue: seq<seq<byte>>, w: WriteSide, mtu: nat, messages: seq<OutMessage>, accepted: seq<bool>, m: nat,
                               s: ReadSide, recorded: set<nat>, maxLen: nat)
    requires Addressed(keys, queue, messages, s.epoch, s.ring.readSeq, maxLen, w.aead.recordVersion, m) && mtu <= RT_MAX_PLAIN_LENGTH
    requires KeysInstalled(keys, w) && WriteSideFits(w) && m < |messages| && CursorOk(messages, Cursor(0, 0))
    requires RunFlight(w, mtu, messages, Cursor(0, 0), accepted).Some?
    requires RunFlight(w, mtu, messages, Cursor(0, 0), accepted).value.cursor == Cursor(|messages|, 0)
    requires RingAgrees(queue, s.ring) && Behind(s, recorded, w)
    ensures RingInv(s.ring)
    ensures var r := RunFlight(w, mtu, messages, Cursor(0, 0), accepted).value;
            var s' := ReadPackets(s, keys.reader(s.epoch), maxLen, r.packets);
            && s'.Some? && s'.value.ring.readSeq == s.ring.readSeq && CurrentComplete(s'.value.ring)
            && s.ring.readSeq < |queue|
            && Raw(s'.value.ring.slots[s.ring.readSeq % MAX_HANDSHAKE_FLIGHT].value) == queue[s.ring.readSeq]
  {
    RingInvOfAgrees(queue, s.ring);
    var msg, n := messages[m], s.ring.readSeq;
    assert Welcome(keys, queue, s.epoch, n, maxLen, msg) && Concerns(msg, s.epoch, n);
    WholeFacts(msg.data);
    var len := BodyLen(msg);
    var r := RunFlight(w, mtu, messages, Cursor(0, 0), accepted).value;
    hide ParseFragment, IsWhole, RunFlight, Addressed, RingAgrees, Behind, Welcome, Concerns, ReadPackets, RingInv;
    assert Reading(queue, s, recorded, w, len, false, iset{});
    var recorded' := FlightArrives(keys, queue, w, mtu, messages, Cursor(0, 0), accepted, m, s, recorded, maxLen, len, false, iset{});
    FlightTiles(w, mtu, messages, Cursor(0, 0), accepted);
    FollowVisits(messages, Cursor(0, 0), r.pieces, m);
    forall k: nat | k < len
      ensures k in BytesOf(r.pieces, m)
    {
      FollowCovers(messages, Cursor(0, 0), r.pieces, m, k);
      var i :| 0 <= i < |r.pieces| && r.pieces[i].msg == m && r.pieces[i].off <= k < r.pieces[i].off + r.pieces[i].len;
      InBytesOf(r.pieces, m, i, k);
    }
    var ring := ReadPackets(s, keys.reader(s.epoch), maxLen, r.packets).value.ring;
    CoveredIsComplete(ring, len, iset{} + BytesOf(r.pieces, m));
    ReleasedIsQueued(queue, ring);
  }

  lemma CoveredIsComplete(r: Ring, len: nat, has: iset<nat>)
    requires |r.slots| == MAX_HANDSHAKE_FLIGHT && Covers(r, r.readSeq, len, true, has)
    requires forall k: nat :: k < len ==> k in has
    ensures CurrentComplete(r)
  {
  }
}
