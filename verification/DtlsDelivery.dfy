/** End to end: a DTLS sender and a DTLS receiver joined by a network that loses, repeats and
    reorders packets. Whatever it does, the receiver releases a prefix of what was queued. */
module DtlsDelivery {
  import opened Options
  import opened Words
  import opened DtlsWire
  import opened ReplayWindow
  import opened Reassembly
  import opened Aead
  import opened DtlsReceive
  import opened DtlsSend

  /** The record protection of each epoch at the two ends, as the key schedule fixes it. */
  datatype KeySchedule = KeySchedule(writer: nat -> Context, reader: nat -> Context) {
    ghost predicate Ok() {
      && (forall e: nat :: Paired(writer(e), reader(e)))
      && (forall e: nat :: writer(e).recordVersion < 0x1_0000)
    }
  }

  // ---------- honest traffic ----------

  /** Message i of the queue is a whole message with number i. */
  ghost predicate QueueOk(queue: seq<seq<byte>>) {
    && |queue| < 0x1_0000
    && forall i :: 0 <= i < |queue| ==> IsWhole(queue[i]) && ParseFragment(queue[i]).value.hdr.seqNum == i
  }

  /** The plaintext is one fragment of a queued message. */
  ghost predicate HonestFragment(queue: seq<seq<byte>>, plain: seq<byte>)
    requires QueueOk(queue)
  {
    match ParseFragment(plain)
    case None => false
    case Some(f) =>
      && f.rest == []
      && f.hdr.seqNum < |queue|
      && var q := ParseFragment(queue[f.hdr.seqNum]).value;
         && f.hdr.typ == q.hdr.typ && f.hdr.msgLen == q.hdr.msgLen
         && f.hdr.fragOff + |f.body| <= |q.body|
         && f.body == q.body[f.hdr.fragOff..f.hdr.fragOff + |f.body|]
  }

  /** A handshake record that opens at the reader holds a fragment of a queued message. */
  ghost predicate HonestRecord(queue: seq<seq<byte>>, keys: KeySchedule, h: RecordHeader, cipher: seq<byte>)
    requires QueueOk(queue)
  {
    var plain := keys.reader(h.epoch).Open(h.typ, h.version, h.Number(), cipher);
    h.typ == RT_HANDSHAKE && plain.Some? ==> HonestFragment(queue, plain.value)
  }

  /** All records of a packet, or of what is left of it, are honest. */
  ghost predicate HonestStream(queue: seq<seq<byte>>, keys: KeySchedule, bytes: seq<byte>)
    requires QueueOk(queue)
    decreases |bytes|
  {
    match ParseRecord(bytes)
    case None => true
    case Some(r) => HonestRecord(queue, keys, r.hdr, r.body) && HonestStream(queue, keys, r.rest)
  }

  /** Queueing another message leaves honest traffic honest. */
  lemma {:induction false} HonestGrows(queue: seq<seq<byte>>, m: seq<byte>, keys: KeySchedule, bytes: seq<byte>)
    requires QueueOk(queue) && QueueOk(queue + [m]) && HonestStream(queue, keys, bytes)
    ensures HonestStream(queue + [m], keys, bytes)
    decreases |bytes|
  {
    hide ParseFragment, IsWhole;
    match ParseRecord(bytes)
    case None =>
    case Some(r) =>
      assert forall i :: 0 <= i < |queue| ==> (queue + [m])[i] == queue[i];
      HonestGrows(queue, m, keys, r.rest);
  }

  // ---------- the sender emits honest packets ----------

  /** The message is one of the queued ones. */
  ghost predicate FromQueue(queue: seq<seq<byte>>, m: OutMessage)
    requires QueueOk(queue)
  {
    m.isCcs ||
    (IsWhole(m.data) && var n := ParseFragment(m.data).value.hdr.seqNum; n < |queue| && queue[n] == m.data)
  }

  ghost predicate KeysInstalled(keys: KeySchedule, w: WriteSide) {
    w.aead == keys.writer(w.epoch) && (w.epoch >= 1 ==> w.lastAead == keys.writer(w.epoch - 1))
  }

  lemma FragmentIsHonest(queue: seq<seq<byte>>, data: seq<byte>, offset: nat, todo: nat)
    requires QueueOk(queue) && FromQueue(queue, OutMessage(data, 0, false))
    requires offset + todo <= |ParseFragment(data).value.body|
    ensures ParseFragment(data).value.hdr.Fits() && |ParseFragment(data).value.body| < 0x100_0000
    ensures HonestFragment(queue, FragmentBytes(ParseFragment(data).value, offset, todo))
  {
    WholeFacts(data);
    var f := ParseFragment(data).value;
    var h := f.hdr.(fragOff := offset, fragLen := todo);
    var plain := FragmentBytes(f, offset, todo);
    assert plain == HeaderBytes(h) + f.body[offset..offset + todo] + [];
    ParseOfAssembled(h, f.body[offset..offset + todo], []);
  }

  /** A sealed record parses back and opens to what was sealed. */
  lemma SealedRecordOpens(keys: KeySchedule, w: WriteSide, maxOut: nat, typ: byte, plain: seq<byte>, previous: bool, rest: seq<byte>)
    requires keys.Ok() && KeysInstalled(keys, w) && WriteSideFits(w) && (previous ==> w.epoch >= 1)
    requires SealRecord(w, maxOut, typ, plain, previous).Some?
    ensures var s := SealRecord(w, maxOut, typ, plain, previous).value;
            && ParseRecord(s.record + rest).Some?
            && var r := ParseRecord(s.record + rest).value;
               && r.rest == rest && r.hdr.typ == typ
               && keys.reader(r.hdr.epoch).Open(r.hdr.typ, r.hdr.version, r.hdr.Number(), r.body) == Some(plain)
  {
    var h := NextHeader(w, typ, previous);
    var ctx := WriteAead(w, previous);
    assert ctx == keys.writer(h.epoch);
    var cipher := ctx.Seal(maxOut - RT_HEADER_LENGTH, typ, h.version, h.Number(), plain).value;
    ParseOfRecord(h, cipher, rest);
    OpenOfSeal(keys.writer(h.epoch), keys.reader(h.epoch), maxOut - RT_HEADER_LENGTH, typ, h.version, h.Number(), plain);
  }

  lemma MessageRecordHonest(queue: seq<seq<byte>>, keys: KeySchedule, w: WriteSide, maxOut: nat, msg: OutMessage, offset: nat, rest: seq<byte>)
    requires QueueOk(queue) && keys.Ok() && KeysInstalled(keys, w) && WriteSideFits(w) && FromQueue(queue, msg)
    requires HonestStream(queue, keys, rest)
    ensures var r := SealNextMessage(w, maxOut, msg, offset);
            r.SealSuccess? || r.PartialSeal? ==> HonestStream(queue, keys, r.record + rest)
  {
    hide SealRecord, ParseRecord, ParseFragment, FragmentBytes, IsWhole, HonestFragment;
    var r := SealNextMessage(w, maxOut, msg, offset);
    if r.SealSuccess? || r.PartialSeal? {
      var previous := w.epoch >= 1 && msg.epoch == w.epoch - 1;
      if msg.isCcs {
        SealedRecordOpens(keys, w, maxOut, RT_CHANGE_CIPHER_SPEC, [MT_CCS], previous, rest);
      } else {
        WholeFacts(msg.data);
        var f := ParseFragment(msg.data).value;
        var room, left := maxOut - HM_HEADER_LENGTH - MaxSealOverhead(w, previous), |f.body| - offset;
        var todo := if left > room then room else left;
        FragmentIsHonest(queue, msg.data, offset, todo);
        SealedRecordOpens(keys, w, maxOut, RT_HANDSHAKE, FragmentBytes(f, offset, todo), previous, rest);
      }
    }
  }

  /** Every packet of a flight of queued messages is honest. */
  lemma {:induction false} PacketHonest(queue: seq<seq<byte>>, keys: KeySchedule, w: WriteSide, maxOut: nat, messages: seq<OutMessage>, c: Cursor)
    requires QueueOk(queue) && keys.Ok() && KeysInstalled(keys, w) && WriteSideFits(w)
    requires c.written <= |messages| && forall m :: m in messages ==> FromQueue(queue, m)
    requires PackMessages(w, maxOut, messages, c).Some?
    ensures HonestStream(queue, keys, PackMessages(w, maxOut, messages, c).value.bytes)
    decreases |messages| - c.written
  {
    hide SealNextMessage, PackMessages, FromQueue, HonestRecord;
    PackStep(w, maxOut, messages, c);
    if c.written < |messages| {
      var r := SealNextMessage(w, maxOut, messages[c.written], c.offset);
      if r.PartialSeal? {
        MessageRecordHonest(queue, keys, w, maxOut, messages[c.written], c.offset, []);
        assert r.record + [] == r.record;
      } else if r.SealSuccess? {
        PacketHonest(queue, keys, r.w, maxOut - |r.record|, messages, Cursor(c.written + 1, 0));
        MessageRecordHonest(queue, keys, w, maxOut, messages[c.written], c.offset,
                            PackMessages(r.w, maxOut - |r.record|, messages, Cursor(c.written + 1, 0)).value.bytes);
      }
    }
  }

  // ---------- the receiver keeps to the queue ----------

  /** A partial message agrees with the queued message of its number. */
  ghost predicate Agrees(queue: seq<seq<byte>>, p: PartialMessage)
    requires QueueOk(queue)
  {
    && p.seqNum < |queue|
    && var q := ParseFragment(queue[p.seqNum]).value;
       && p.typ == q.hdr.typ && p.msgLen == q.hdr.msgLen == |q.body|
       && forall k :: k in p.got ==> k < |q.body| && p.got[k] == q.body[k]
  }

  ghost predicate RingAgrees(queue: seq<seq<byte>>, r: Ring)
    requires QueueOk(queue)
  {
    && RingInv(r)
    && forall i :: 0 <= i < MAX_HANDSHAKE_FLIGHT && r.slots[i].Some? ==> Agrees(queue, r.slots[i].value)
  }

  lemma AgreesGrows(queue: seq<seq<byte>>, m: seq<byte>, r: Ring)
    requires QueueOk(queue) && QueueOk(queue + [m]) && RingAgrees(queue, r)
    ensures RingAgrees(queue + [m], r)
  {
    hide ParseFragment, IsWhole;
    assert forall i :: 0 <= i < |queue| ==> (queue + [m])[i] == queue[i];
  }

  lemma HonestFragmentKeepsRing(queue: seq<seq<byte>>, r: Ring, epoch: nat, maxLen: nat, plain: seq<byte>)
    requires QueueOk(queue) && RingAgrees(queue, r) && HonestFragment(queue, plain)
    ensures RingAgrees(queue, ProcessRecord(r, epoch, maxLen, plain).0)
  {
    var f := ParseFragment(plain).value;
    AssembledOfParse(plain);
    WholeFacts(queue[f.hdr.seqNum]);
    hide ParseFragment, IsWhole, HeaderBytes;
    ProcessFragmentKeepsRing(r, epoch, maxLen, f);
    var next := ProcessFragment(r, epoch, maxLen, f);
    if next.Some? && r.readSeq <= f.hdr.seqNum < r.readSeq + MAX_HANDSHAKE_FLIGHT {
      var i := f.hdr.seqNum % MAX_HANDSHAKE_FLIGHT;
      if r.slots[i].Some? {
        SlotHoldsItsNumber(r, f.hdr.seqNum);
      }
      var p := Incoming(r, f.hdr).value;
      assert Agrees(queue, p);
      ChunkAgrees(queue, p, f);
    }
  }

  lemma ChunkAgrees(queue: seq<seq<byte>>, p: PartialMessage, f: Fragment)
    requires QueueOk(queue) && Agrees(queue, p) && p.seqNum == f.hdr.seqNum
    requires var q := ParseFragment(queue[p.seqNum]).value;
             f.hdr.fragOff + |f.body| <= |q.body| && f.body == q.body[f.hdr.fragOff..f.hdr.fragOff + |f.body|]
    ensures Agrees(queue, p.(got := p.got + Chunk(f.hdr.fragOff, f.body)))
  {
  }

  /** A complete message that agrees with the queue is, header included, the queued one. */
  lemma ReleasedIsQueued(queue: seq<seq<byte>>, r: Ring)
    requires QueueOk(queue) && RingAgrees(queue, r) && CurrentComplete(r)
    ensures r.readSeq < |queue|
    ensures Raw(r.slots[r.readSeq % MAX_HANDSHAKE_FLIGHT].value) == queue[r.readSeq]
  {
    var p := r.slots[r.readSeq % MAX_HANDSHAKE_FLIGHT].value;
    SlotHoldsItsNumber(r, r.readSeq);
    var data := queue[r.readSeq];
    WholeFacts(data);
    AssembledOfParse(data);
    var q := ParseFragment(data).value;
    assert q.hdr == WholeHeader(p.typ, p.msgLen, p.seqNum);
    assert Raw(p) == HeaderBytes(q.hdr) + q.body + q.rest;
  }

  // ---------- the system and its runs ----------

  /** `queue` is every handshake message ever added, `network` every packet ever accepted by the
      sender's BIO, `buffer` what is left of the packet being read, `released` the raw messages the
      receiver has handed over. */
  datatype System = System(
    queue: seq<seq<byte>>,
    sender: SenderState,
    network: set<seq<byte>>,
    reader: ReadSide,
    buffer: seq<byte>,
    released: seq<seq<byte>>)

  datatype Action =
    | Queue(typ: byte, body: seq<byte>)
    | QueueCcs
    | ChangeWriteState
    | Flush
    | Rewind
    | SendPacket(mtu: nat, accepted: bool)
    | Deliver(packet: seq<byte>)
    | OpenBuffered(closed: bool, onAlert: OpenStatus, maxLen: nat)
    | Get
    | NextMessage
    | TakeCcs
    | ChangeReadState

  ghost function Init(keys: KeySchedule): System {
    System([],
           SenderState(WriteSide(0, keys.writer(0), 0, keys.writer(0), 0), [], Cursor(0, 0), false, false),
           {}, INITIAL_READ_SIDE, [], [])
  }

  /** One step; an action that is not enabled changes nothing. The sender stops after a sealing error,
      the epochs stop short of overflow, and fewer than 2^16 messages are queued. The network may
      deliver any packet at any time, and as often as it likes. */
  ghost function Next(keys: KeySchedule, s: System, a: Action): System
    requires Inv(keys, s)
  {
    match a
    case Queue(typ, body) =>
      if s.sender.broken || |s.queue| + 1 >= 0x1_0000 || |body| >= 0x100_0000 then s
      else
        var data := MessageBytes(typ, |s.queue|, body);
        (match AddToFlight(s.sender, data, false)
         case None => s
         case Some(t) => s.(queue := s.queue + [data], sender := t))
    case QueueCcs =>
      if s.sender.broken then s
      else (match AddToFlight(s.sender, [], true)
            case None => s
            case Some(t) => s.(sender := t))
    case ChangeWriteState =>
      if s.sender.w.epoch == 0xffff then s
      else s.(sender := s.sender.(w := SetWriteState(s.sender.w, keys.writer(s.sender.w.epoch + 1))))
    case Flush => s.(sender := s.sender.(complete := true))
    case Rewind => s.(sender := s.sender.(cursor := Cursor(0, 0)))
    case SendPacket(mtu, accepted) =>
      if s.sender.broken || s.sender.cursor.written == |s.sender.messages| then s
      else
        (match SealNextPacket(s.sender.w, mtu, s.sender.messages, s.sender.cursor)
         case None => s.(sender := s.sender.(broken := true))
         case Some(p) =>
           if accepted then s.(sender := s.sender.(w := p.w, cursor := p.cursor), network := s.network + {p.bytes})
           else s.(sender := s.sender.(w := p.w)))
    case Deliver(packet) => if s.buffer == [] && packet in s.network then s.(buffer := packet) else s
    case OpenBuffered(closed, onAlert, maxLen) =>
      var (reader', _, consumed) :=
        OpenHandshake(s.reader, keys.reader(s.reader.epoch), maxLen, closed, onAlert, s.buffer);
      OpenConsumes(s.reader, keys.reader(s.reader.epoch), maxLen, closed, onAlert, s.buffer);
      s.(reader := reader', buffer := s.buffer[consumed..])
    case Get => if CurrentComplete(s.reader.ring) then s.(reader := s.reader.(hasMessage := true)) else s
    case NextMessage =>
      if !s.reader.hasMessage then s
      else
        ReleasedIsQueued(s.queue, s.reader.ring);
        var p := s.reader.ring.slots[s.reader.ring.readSeq % MAX_HANDSHAKE_FLIGHT].value;
        s.(released := s.released + [Raw(p)], reader := s.reader.(ring := Advance(s.reader.ring), hasMessage := false))
    case TakeCcs => s.(reader := s.reader.(hasChangeCipherSpec := false))
    case ChangeReadState =>
      if HasUnprocessed(s.reader) || s.reader.epoch == 0xffff then s
      else s.(reader := s.reader.(epoch := s.reader.epoch + 1, window := EMPTY_WINDOW))
  }

  ghost predicate Inv(keys: KeySchedule, s: System) {
    && QueueOk(s.queue)
    && SenderOk(keys, s.queue, s.sender)
    && (forall p :: p in s.network ==> HonestStream(s.queue, keys, p))
    && HonestStream(s.queue, keys, s.buffer)
    && RingAgrees(s.queue, s.reader.ring)
    && s.reader.ring.readSeq == |s.released| <= |s.queue|
    && s.released == s.queue[..|s.released|]
    && (s.reader.hasMessage ==> CurrentComplete(s.reader.ring))
  }

  ghost predicate SenderOk(keys: KeySchedule, queue: seq<seq<byte>>, t: SenderState)
    requires QueueOk(queue)
  {
    && KeysInstalled(keys, t.w) && WriteSideFits(t.w)
    && (forall m :: m in t.messages ==> FromQueue(queue, m))
    && CursorOk(t.messages, t.cursor)
  }

  lemma OpenConsumes(s: ReadSide, aead: Context, maxLen: nat, closed: bool, onAlert: OpenStatus, input: seq<byte>)
    requires |s.ring.slots| == MAX_HANDSHAKE_FLIGHT
    ensures OpenHandshake(s, aead, maxLen, closed, onAlert, input).2 <= |input|
  {
    hide OnRecord;
  }

  lemma OnHonestRecord(queue: seq<seq<byte>>, s: ReadSide, aead: Context, maxLen: nat, typ: byte, body: seq<byte>)
    requires QueueOk(queue) && RingAgrees(queue, s.ring) && (typ == RT_HANDSHAKE ==> HonestFragment(queue, body))
    ensures var s' := OnRecord(s, aead, maxLen, typ, body).0;
            && RingAgrees(queue, s'.ring) && s'.ring.readSeq == s.ring.readSeq && s'.hasMessage == s.hasMessage
            && (CurrentComplete(s.ring) ==> CurrentComplete(s'.ring))
  {
    RingInvOfAgrees(queue, s.ring);
    hide RingAgrees, HonestFragment, ProcessRecord, RingInv, CurrentComplete;
    if typ == RT_HANDSHAKE {
      if CurrentComplete(s.ring) {
        CompleteStays(s.ring, s.epoch, maxLen, body);
      }
      HonestFragmentKeepsRing(queue, s.ring, s.epoch, maxLen, body);
      ProcessRecordKeepsRing(s.ring, s.epoch, maxLen, body);
    }
  }

  /** Reading honest bytes keeps the ring in agreement with the queue and leaves honest bytes. */
  lemma OpenHonest(queue: seq<seq<byte>>, keys: KeySchedule, s: ReadSide, maxLen: nat, closed: bool, onAlert: OpenStatus, input: seq<byte>)
    requires QueueOk(queue) && RingAgrees(queue, s.ring) && HonestStream(queue, keys, input)
    ensures var (s', _, consumed) := OpenHandshake(s, keys.reader(s.epoch), maxLen, closed, onAlert, input);
            && consumed <= |input|
            && RingAgrees(queue, s'.ring) && s'.ring.readSeq == s.ring.readSeq && s'.hasMessage == s.hasMessage
            && (CurrentComplete(s.ring) ==> CurrentComplete(s'.ring))
            && HonestStream(queue, keys, input[consumed..])
  {
    var aead := keys.reader(s.epoch);
    var o := OpenRecord(s.epoch, s.window, aead, closed, onAlert, input);
    Remainder(queue, keys, s.epoch, s.window, aead, closed, onAlert, input);
    RingInvOfAgrees(queue, s.ring);
    hide RingAgrees, HonestFragment, HonestStream, OpenRecord, OnRecord;
    if o.status == Success {
      if o.typ == RT_HANDSHAKE {
        OpenedIsHonest(queue, keys, s.epoch, s.window, closed, onAlert, input);
      }
      OnHonestRecord(queue, s.(window := o.window), aead, maxLen, o.typ, o.body);
    }
  }

  lemma RingInvOfAgrees(queue: seq<seq<byte>>, r: Ring)
    requires QueueOk(queue) && RingAgrees(queue, r)
    ensures RingInv(r)
  {
  }

  /** What an honest stream leaves after one record is honest. */
  lemma Remainder(queue: seq<seq<byte>>, keys: KeySchedule, epoch: nat, window: Window, aead: Context, closed: bool, onAlert: OpenStatus, input: seq<byte>)
    requires QueueOk(queue) && HonestStream(queue, keys, input)
    ensures HonestStream(queue, keys, input[OpenRecord(epoch, window, aead, closed, onAlert, input).consumed..])
  {
    hide HonestRecord;
    var o := OpenRecord(epoch, window, aead, closed, onAlert, input);
    assert input[0..] == input && input[|input|..] == [];
    if ParseRecord(input).Some? {
      var r := ParseRecord(input).value;
      assert input[|input| - |r.rest|..] == r.rest;
    }
  }

  /** An accepted handshake record of an honest stream is one fragment of a queued message. */
  lemma OpenedIsHonest(queue: seq<seq<byte>>, keys: KeySchedule, epoch: nat, window: Window, closed: bool, onAlert: OpenStatus, input: seq<byte>)
    requires QueueOk(queue) && HonestStream(queue, keys, input)
    requires var o := OpenRecord(epoch, window, keys.reader(epoch), closed, onAlert, input);
             o.status == Success && o.typ == RT_HANDSHAKE
    ensures HonestFragment(queue, OpenRecord(epoch, window, keys.reader(epoch), closed, onAlert, input).body)
  {
    hide HonestFragment;
  }

  lemma QueueStep(keys: KeySchedule, s: System, typ: byte, body: seq<byte>)
    requires keys.Ok() && Inv(keys, s)
    ensures Inv(keys, Next(keys, s, Queue(typ, body)))
  {
    if !s.sender.broken && |s.queue| + 1 < 0x1_0000 && |body| < 0x100_0000 {
      var data := MessageBytes(typ, |s.queue|, body);
      var queue' := s.queue + [data];
      MessageBytesWhole(typ, |s.queue|, body);
      hide ParseFragment, IsWhole, MessageBytes, HonestStream, RingAgrees, SenderOk;
      assert forall i :: 0 <= i < |s.queue| ==> queue'[i] == s.queue[i];
      assert QueueOk(queue');
      forall p | p in s.network
        ensures HonestStream(queue', keys, p)
      {
        HonestGrows(s.queue, data, keys, p);
      }
      HonestGrows(s.queue, data, keys, s.buffer);
      AgreesGrows(s.queue, data, s.reader.ring);
      assert queue'[..|s.released|] == s.queue[..|s.released|];
      SenderGrows(keys, s.queue, data, s.sender);
      assert FromQueue(queue', OutMessage(data, s.sender.w.epoch, false));
      AddedMessageKeepsSender(keys, queue', s.sender, data, false);
    }
  }

  lemma AddedMessageKeepsSender(keys: KeySchedule, queue: seq<seq<byte>>, t: SenderState, data: seq<byte>, isCcs: bool)
    requires QueueOk(queue) && SenderOk(keys, queue, t) && FromQueue(queue, OutMessage(data, t.w.epoch, isCcs))
    ensures var t' := AddToFlight(t, data, isCcs); t'.Some? ==> SenderOk(keys, queue, t'.value)
  {
    hide ParseFragment, IsWhole;
  }

  lemma SenderGrows(keys: KeySchedule, queue: seq<seq<byte>>, m: seq<byte>, t: SenderState)
    requires QueueOk(queue) && QueueOk(queue + [m]) && SenderOk(keys, queue, t)
    ensures SenderOk(keys, queue + [m], t)
  {
    hide ParseFragment, IsWhole;
    forall x | x in t.messages
      ensures FromQueue(queue + [m], x)
    {
      assert FromQueue(queue, x);
      assert forall i :: 0 <= i < |queue| ==> (queue + [m])[i] == queue[i];
    }
  }

  lemma SendStep(keys: KeySchedule, s: System, mtu: nat, accepted: bool)
    requires keys.Ok() && Inv(keys, s)
    ensures Inv(keys, Next(keys, s, SendPacket(mtu, accepted)))
  {
    hide HonestStream, RingAgrees, PackMessages, FromQueue;
    var t := s.sender;
    if !t.broken && t.cursor.written < |t.messages| && SealNextPacket(t.w, mtu, t.messages, t.cursor).Some? {
      PacketTiles(t.w, mtu, t.messages, t.cursor);
      PacketHonest(s.queue, keys, t.w, mtu, t.messages, t.cursor);
    }
  }

  lemma NextMessageStep(keys: KeySchedule, s: System)
    requires keys.Ok() && Inv(keys, s)
    ensures Inv(keys, Next(keys, s, NextMessage))
  {
    hide HonestStream, ParseFragment, IsWhole, Raw, SenderOk;
    if s.reader.hasMessage {
      ReleasedIsQueued(s.queue, s.reader.ring);
      AdvanceKeepsRing(s.reader.ring);
      assert s.queue[..|s.released| + 1] == s.queue[..|s.released|] + [s.queue[|s.released|]];
    }
  }

  /** Every step keeps the invariant. */
  lemma NextKeepsInv(keys: KeySchedule, s: System, a: Action)
    requires keys.Ok() && Inv(keys, s)
    ensures Inv(keys, Next(keys, s, a))
  {
    match a
    case Queue(typ, body) => QueueStep(keys, s, typ, body);
    case SendPacket(mtu, accepted) => SendStep(keys, s, mtu, accepted);
    case NextMessage => NextMessageStep(keys, s);
    case QueueCcs =>
      hide HonestStream, RingAgrees;
      AddedMessageKeepsSender(keys, s.queue, s.sender, [], true);
    case OpenBuffered(closed, onAlert, maxLen) =>
      hide OpenHandshake, HonestStream, RingAgrees, SenderOk;
      OpenHonest(s.queue, keys, s.reader, maxLen, closed, onAlert, s.buffer);
    case _ =>
      hide HonestStream, RingAgrees, ParseFragment, IsWhole;
  }

  ghost function Run(keys: KeySchedule, s: System, actions: seq<Action>): System
    requires keys.Ok() && Inv(keys, s)
    decreases |actions|
  {
    if actions == [] then s
    else
      NextKeepsInv(keys, s, actions[0]);
      Run(keys, Next(keys, s, actions[0]), actions[1..])
  }

  lemma {:induction false} RunKeepsInv(keys: KeySchedule, s: System, actions: seq<Action>)
    requires keys.Ok() && Inv(keys, s)
    ensures Inv(keys, Run(keys, s, actions))
    decreases |actions|
  {
    if actions != [] {
      NextKeepsInv(keys, s, actions[0]);
      RunKeepsInv(keys, Next(keys, s, actions[0]), actions[1..]);
    }
  }

  lemma InitInv(keys: KeySchedule)
    requires keys.Ok()
    ensures Inv(keys, Init(keys))
  {
    assert ParseRecord([]) == None;
  }

  /** The message at hand is complete, and it is the n-th queued. */
  ghost predicate AtHand(r: Ring, queue: seq<seq<byte>>, n: nat) {
    && RingInv(r) && CurrentComplete(r) && n < |queue|
    && var p := r.slots[r.readSeq % MAX_HANDSHAKE_FLIGHT].value;
       p.msgLen < 0x100_0000 && p.seqNum < 0x1_0000 && Raw(p) == queue[n]
  }

  /** End-to-end delivery: for every run, whatever the MTUs, refusals, retransmissions, losses,
      repetitions and reorderings, the messages released are byte for byte, headers included, the
      first messages queued, and the message at hand, if there is one, is the next. The assertion that
      the message at hand is complete never fails. */
  lemma DeliveredIsPrefixOfQueued(keys: KeySchedule, actions: seq<Action>)
    requires keys.Ok()
    ensures Inv(keys, Init(keys))
    ensures var s := Run(keys, Init(keys), actions);
            s.released <= s.queue && (s.reader.hasMessage ==> AtHand(s.reader.ring, s.queue, |s.released|))
  {
    InitInv(keys);
    RunKeepsInv(keys, Init(keys), actions);
    var s := Run(keys, Init(keys), actions);
    if s.reader.hasMessage {
      ReleasedIsQueued(s.queue, s.reader.ring);
    }
  }
}
