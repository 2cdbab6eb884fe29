/** Which epoch a message travels in: over all runs, a message goes out under the keys that were in use
    when it was queued, however late and however often it is sent, and it is read in that epoch. */
module DtlsEpochs {
  import opened Options
  import opened Words
  import opened DtlsWire
  import opened ReplayWindow
  import opened Reassembly
  import opened Aead
  import opened DtlsReceive
  import opened DtlsSend
  import opened DtlsDelivery
  import opened DtlsArrival

  // ---------- what has happened ----------

  /** The number of write-key changes so far; the number there had been when each message of the queue
      was queued; the numbers there had been whenever ChangeCipherSpec was queued; and the number of the
      first message queued after the last flush before it, with whether the flight has been flushed. */
  datatype History = History(changes: nat, queuedAt: seq<nat>, ccsAt: set<nat>, start: nat, flushed: bool)

  const NOTHING_YET := History(0, [], {}, 0, false)

  /** An action of a run in which there were `before` messages in the queue, and then `after`. Key
      changes stop short of the epoch's overflow. */
  function Noted(h: History, a: Action, before: nat, after: nat): History {
    match a
    case ChangeWriteState => h.(changes := if h.changes < 0xffff then h.changes + 1 else h.changes)
    case Queue(_, _) =>
      if after == before then h
      else h.(queuedAt := h.queuedAt + [h.changes], start := if h.flushed then before else h.start, flushed := false)
    case QueueCcs => h.(ccsAt := h.ccsAt + {h.changes}, start := if h.flushed then before else h.start, flushed := false)
    case Flush => h.(flushed := true)
    case _ => h
  }

  ghost function HistoryOf(keys: KeySchedule, s: System, actions: seq<Action>, h: History): History
    requires keys.Ok() && Inv(keys, s)
    decreases |actions|
  {
    if actions == [] then h
    else
      NextKeepsInv(keys, s, actions[0]);
      var s' := Next(keys, s, actions[0]);
      HistoryOf(keys, s', actions[1..], Noted(h, actions[0], |s.queue|, |s'.queue|))
  }

  /** More has been queued. */
  predicate Later(h: History, h': History) {
    h.queuedAt <= h'.queuedAt && h.ccsAt <= h'.ccsAt
  }

  // ---------- records in the epoch of what they carry ----------

  /** The plaintext of a record of this epoch is ChangeCipherSpec queued in it, or one fragment of a
      message queued in it. */
  predicate PlainInEpoch(h: History, typ: byte, epoch: nat, plain: seq<byte>) {
    if typ == RT_CHANGE_CIPHER_SPEC then plain == [MT_CCS] && epoch in h.ccsAt
    else
      && typ == RT_HANDSHAKE
      && match ParseFragment(plain)
         case None => false
         case Some(f) => f.rest == [] && f.hdr.seqNum < |h.queuedAt| && h.queuedAt[f.hdr.seqNum] == epoch
  }

  /** The record opens under the keys of the epoch in its header, and that is the epoch of what it carries. */
  ghost predicate RecordInEpoch(keys: KeySchedule, h: History, hdr: RecordHeader, body: seq<byte>) {
    var plain := keys.reader(hdr.epoch).Open(hdr.typ, hdr.version, hdr.Number(), body);
    plain.Some? && PlainInEpoch(h, hdr.typ, hdr.epoch, plain.value)
  }

  /** The bytes are whole records of that kind, and nothing else. */
  ghost predicate StreamInEpoch(keys: KeySchedule, h: History, bytes: seq<byte>)
    decreases |bytes|
  {
    match ParseRecord(bytes)
    case None => bytes == []
    case Some(r) => RecordInEpoch(keys, h, r.hdr, r.body) && StreamInEpoch(keys, h, r.rest)
  }

  lemma {:induction false} StreamStays(keys: KeySchedule, h: History, h': History, bytes: seq<byte>)
    requires Later(h, h') && StreamInEpoch(keys, h, bytes)
    ensures StreamInEpoch(keys, h', bytes)
    decreases |bytes|
  {
    hide ParseFragment, ParseRecord;
    if ParseRecord(bytes).Some? {
      StreamShrinks(bytes);
      StreamStays(keys, h, h', ParseRecord(bytes).value.rest);
    }
  }

  lemma StreamShrinks(bytes: seq<byte>)
    requires ParseRecord(bytes).Some?
    ensures |ParseRecord(bytes).value.rest| < |bytes|
  {
  }

  // ---------- the sender ----------

  /** The flight message carries the epoch it was queued in. */
  predicate MessageInEpoch(h: History, m: OutMessage) {
    if m.isCcs then m.epoch in h.ccsAt
    else IsWhole(m.data) && var n := ParseFragment(m.data).value.hdr.seqNum; n < |h.queuedAt| && h.queuedAt[n] == m.epoch
  }

  /** What is sealed of it goes into a record of that epoch. */
  lemma MessageRecordInEpoch(keys: KeySchedule, h: History, w: WriteSide, maxOut: nat, msg: OutMessage, offset: nat, rest: seq<byte>)
    requires keys.Ok() && KeysInstalled(keys, w) && WriteSideFits(w)
    requires WellFormed(msg) && offset <= BodyLen(msg) && MessageInEpoch(h, msg) && StreamInEpoch(keys, h, rest)
    ensures var r := SealNextMessage(w, maxOut, msg, offset);
            r.SealSuccess? || r.PartialSeal? ==> StreamInEpoch(keys, h, r.record + rest)
  {
    SealedPiece(w, maxOut, msg, offset);
    var r := SealNextMessage(w, maxOut, msg, offset);
    if r.SealSuccess? || r.PartialSeal? {
      var previous, typ := msg.epoch != w.epoch, if msg.isCcs then RT_CHANGE_CIPHER_SPEC else RT_HANDSHAKE;
      var plain := PieceBytes(msg, offset, r.len);
      if !msg.isCcs {
        PieceParses(msg, offset, r.len);
      }
      hide SealNextMessage, SealRecord, PieceBytes, ParseFragment, ParseRecord, IsWhole, NextHeader;
      assert PlainInEpoch(h, typ, msg.epoch, plain);
      SealedRecordOpens(keys, w, maxOut, typ, plain, previous, rest);
      SealedRecord(w, maxOut, typ, plain, previous, rest);
    }
  }

  lemma EmptyInEpoch(keys: KeySchedule, h: History)
    ensures StreamInEpoch(keys, h, [])
  {
    assert ParseRecord([]) == None;
  }

  lemma KeysStay(keys: KeySchedule, w: WriteSide, maxOut: nat, msg: OutMessage, offset: nat)
    requires KeysInstalled(keys, w) && WriteSideFits(w)
    ensures var r := SealNextMessage(w, maxOut, msg, offset);
            r.SealSuccess? || r.PartialSeal? ==> KeysInstalled(keys, r.w) && WriteSideFits(r.w)
  {
    hide SealNextMessage;
  }

  lemma {:induction false} PacketInEpoch(keys: KeySchedule, h: History, w: WriteSide, maxOut: nat, messages: seq<OutMessage>, c: Cursor)
    requires keys.Ok() && KeysInstalled(keys, w) && WriteSideFits(w)
    requires CursorOk(messages, c) && forall m :: m in messages ==> MessageInEpoch(h, m)
    requires PackMessages(w, maxOut, messages, c).Some?
    ensures StreamInEpoch(keys, h, PackMessages(w, maxOut, messages, c).value.bytes)
    decreases |messages| - c.written
  {
    hide SealNextMessage, PackMessages, MessageInEpoch, StreamInEpoch, KeysInstalled, WriteSideFits, WellFormed, BodyLen;
    PackStep(w, maxOut, messages, c);
    assert StreamInEpoch(keys, h, []) by {
      EmptyInEpoch(keys, h);
    }
    if c.written < |messages| {
      var msg := messages[c.written];
      var r := SealNextMessage(w, maxOut, msg, c.offset);
      KeysStay(keys, w, maxOut, msg, c.offset);
      if r.PartialSeal? {
        MessageRecordInEpoch(keys, h, w, maxOut, msg, c.offset, []);
        assert r.record + [] == r.record;
      } else if r.SealSuccess? {
        PacketInEpoch(keys, h, r.w, maxOut - |r.record|, messages, Cursor(c.written + 1, 0));
        MessageRecordInEpoch(keys, h, w, maxOut, msg, c.offset,
                             PackMessages(r.w, maxOut - |r.record|, messages, Cursor(c.written + 1, 0)).value.bytes);
      }
    }
  }

  // ---------- the receiver ----------

  /** What is held of a message, other than the one at hand, was queued in the epoch being read, and so
      was a ChangeCipherSpec that waits. */
  ghost predicate ReaderInEpoch(h: History, s: ReadSide)
    requires |s.ring.slots| == MAX_HANDSHAKE_FLIGHT
  {
    && (s.hasChangeCipherSpec ==> s.epoch in h.ccsAt)
    && forall i :: 0 <= i < MAX_HANDSHAKE_FLIGHT && s.ring.slots[i].Some? && !(s.hasMessage && i == s.ring.readSeq % MAX_HANDSHAKE_FLIGHT) ==>
         var n := s.ring.slots[i].value.seqNum; n < |h.queuedAt| && h.queuedAt[n] == s.epoch
  }

  /** A fragment goes to the message of its number only. */
  lemma FragmentPlaces(r: Ring, epoch: nat, maxLen: nat, cbs: seq<byte>, i: nat)
    requires RingInv(r) && i < MAX_HANDSHAKE_FLIGHT && ParseFragment(cbs).Some? && ParseFragment(cbs).value.rest == []
    ensures var r' := ProcessRecord(r, epoch, maxLen, cbs).0;
            && |r'.slots| == MAX_HANDSHAKE_FLIGHT && r'.readSeq == r.readSeq
            && (r'.slots[i].Some? ==>
                  || r'.slots[i].value.seqNum == ParseFragment(cbs).value.hdr.seqNum
                  || (r.slots[i].Some? && r'.slots[i].value.seqNum == r.slots[i].value.seqNum))
  {
    var f := ParseFragment(cbs).value;
    hide ParseFragment;
    assert ProcessRecord(r, epoch, maxLen, cbs).0 ==
           match ProcessFragment(r, epoch, maxLen, f) case None => r case Some(r') => r';
  }

  lemma RecordPlaces(h: History, s: ReadSide, aead: Context, maxLen: nat, typ: byte, body: seq<byte>)
    requires RingInv(s.ring) && ReaderInEpoch(h, s) && PlainInEpoch(h, typ, s.epoch, body)
    ensures var s' := OnRecord(s, aead, maxLen, typ, body).0;
            |s'.ring.slots| == MAX_HANDSHAKE_FLIGHT && ReaderInEpoch(h, s')
  {
    hide ProcessRecord, ParseFragment;
    if typ == RT_HANDSHAKE {
      var ring := ProcessRecord(s.ring, s.epoch, maxLen, body).0;
      FragmentPlaces(s.ring, s.epoch, maxLen, body, 0);
      forall i | 0 <= i < MAX_HANDSHAKE_FLIGHT && ring.slots[i].Some? && !(s.hasMessage && i == s.ring.readSeq % MAX_HANDSHAKE_FLIGHT)
        ensures var n := ring.slots[i].value.seqNum; n < |h.queuedAt| && h.queuedAt[n] == s.epoch
      {
        FragmentPlaces(s.ring, s.epoch, maxLen, body, i);
      }
    }
  }

  /** Reading what is in the network keeps to the epoch: a record of another one is not taken. */
  lemma OpenInEpoch(keys: KeySchedule, h: History, s: ReadSide, maxLen: nat, closed: bool, onAlert: OpenStatus, input: seq<byte>)
    requires RingInv(s.ring) && ReaderInEpoch(h, s) && StreamInEpoch(keys, h, input)
    ensures var (s', _, consumed) := OpenHandshake(s, keys.reader(s.epoch), maxLen, closed, onAlert, input);
            && consumed <= |input| && |s'.ring.slots| == MAX_HANDSHAKE_FLIGHT
            && ReaderInEpoch(h, s') && StreamInEpoch(keys, h, input[consumed..])
  {
    var aead := keys.reader(s.epoch);
    var o := OpenRecord(s.epoch, s.window, aead, closed, onAlert, input);
    OpenedInEpoch(keys, h, s.epoch, s.window, closed, onAlert, input);
    hide OpenRecord, OnRecord, StreamInEpoch, RingInv, PlainInEpoch;
    if o.status == Success {
      RecordPlaces(h, s.(window := o.window), aead, maxLen, o.typ, o.body);
    }
  }

  lemma OpenedInEpoch(keys: KeySchedule, h: History, epoch: nat, window: Window, closed: bool, onAlert: OpenStatus, input: seq<byte>)
    requires StreamInEpoch(keys, h, input)
    ensures var o := OpenRecord(epoch, window, keys.reader(epoch), closed, onAlert, input);
            && StreamInEpoch(keys, h, input[o.consumed..])
            && (o.status == Success ==> PlainInEpoch(h, o.typ, epoch, o.body))
  {
    OpenedLeaves(epoch, window, keys.reader(epoch), closed, onAlert, input);
    OpenedGives(epoch, window, keys.reader(epoch), closed, onAlert, input);
    assert ParseRecord([]) == None;
    hide ParseRecord, ParseFragment, OpenRecord, Context.Open;
    assert input[0..] == input && input[|input|..] == [];
  }

  lemma OpenedLeaves(epoch: nat, window: Window, aead: Context, closed: bool, onAlert: OpenStatus, input: seq<byte>)
    ensures var n := OpenRecord(epoch, window, aead, closed, onAlert, input).consumed;
            || n == 0 || n == |input|
            || (ParseRecord(input).Some? && input[n..] == ParseRecord(input).value.rest)
  {
    hide Record, ShouldDiscard, Context.Open;
    if ParseRecord(input).Some? {
      assert input[|input| - |ParseRecord(input).value.rest|..] == ParseRecord(input).value.rest;
    }
  }

  lemma OpenedGives(epoch: nat, window: Window, aead: Context, closed: bool, onAlert: OpenStatus, input: seq<byte>)
    ensures var o := OpenRecord(epoch, window, aead, closed, onAlert, input);
            o.status == Success && o.typ != RT_ALERT ==>
              && ParseRecord(input).Some?
              && var r := ParseRecord(input).value;
                 r.hdr.epoch == epoch && o.typ == r.hdr.typ && aead.Open(r.hdr.typ, r.hdr.version, r.hdr.Number(), r.body) == Some(o.body)
    ensures var o := OpenRecord(epoch, window, aead, closed, onAlert, input);
            o.status == Success && o.typ == RT_ALERT ==>
              && ParseRecord(input).Some?
              && var r := ParseRecord(input).value; r.hdr.typ == RT_ALERT && aead.Open(r.hdr.typ, r.hdr.version, r.hdr.Number(), r.body).Some?
  {
    hide ParseRecord, Record, ShouldDiscard, Context.Open;
  }

  // ---------- all runs ----------

  /** The messages of a flight, ChangeCipherSpec left out. */
  function HandshakeData(messages: seq<OutMessage>): seq<seq<byte>> {
    if messages == [] then []
    else
      var m := messages[|messages| - 1];
      HandshakeData(messages[..|messages| - 1]) + if m.isCcs then [] else [m.data]
  }

  /** What is known of a run with this history. */
  ghost predicate Timed(keys: KeySchedule, s: System, h: History)
    requires Inv(keys, s)
  {
    && h.changes == s.sender.w.epoch && |h.queuedAt| == |s.queue|
    && (forall m :: m in s.sender.messages ==> MessageInEpoch(h, m))
    && (forall p :: p in s.network ==> StreamInEpoch(keys, h, p))
    && StreamInEpoch(keys, h, s.buffer)
    && ReaderInEpoch(h, s.reader)
    && (!s.sender.broken ==>
          && s.sender.complete == h.flushed && h.start <= |s.queue|
          && HandshakeData(s.sender.messages) == s.queue[h.start..])
  }

  lemma {:induction false} HistoryKeeps(keys: KeySchedule, s: System, h: History, h': History)
    requires Inv(keys, s) && Timed(keys, s, h) && Later(h, h')
    ensures forall m :: m in s.sender.messages ==> MessageInEpoch(h', m)
    ensures forall p :: p in s.network ==> StreamInEpoch(keys, h', p)
    ensures StreamInEpoch(keys, h', s.buffer) && ReaderInEpoch(h', s.reader)
  {
    assert forall k :: 0 <= k < |h.queuedAt| ==> h'.queuedAt[k] == h.queuedAt[k];
    hide ParseFragment, IsWhole, StreamInEpoch, HonestStream, RingAgrees, SenderOk;
    forall m | m in s.sender.messages
      ensures MessageInEpoch(h', m)
    {
      assert MessageInEpoch(h, m);
    }
    forall p | p in s.network
      ensures StreamInEpoch(keys, h', p)
    {
      StreamStays(keys, h, h', p);
    }
    StreamStays(keys, h, h', s.buffer);
  }

  /** A message that joins the flight. */
  lemma Joins(keys: KeySchedule, s: System, h: History, h': History, queue: seq<seq<byte>>, data: seq<byte>, isCcs: bool, t: SenderState)
    requires Inv(keys, s) && Timed(keys, s, h) && Later(h, h') && !s.sender.broken
    requires AddToFlight(s.sender, data, isCcs) == Some(t) && MessageInEpoch(h', OutMessage(data, h.changes, isCcs))
    requires queue == s.queue + if isCcs then [] else [data]
    requires h'.start == (if h.flushed then |s.queue| else h.start) && !h'.flushed
    ensures forall m :: m in t.messages ==> MessageInEpoch(h', m)
    ensures h'.start <= |queue| && HandshakeData(t.messages) == queue[h'.start..]
    ensures t.w == s.sender.w && !t.complete && !t.broken
  {
    hide MessageInEpoch, Inv, StreamInEpoch, ReaderInEpoch, HandshakeData;
    HistoryKeeps(keys, s, h, h');
    var before := FreshFlight(s.sender).messages;
    DataJoins(before, OutMessage(data, h.changes, isCcs));
    assert HandshakeData(before) == s.queue[h'.start..] by {
      assert HandshakeData([]) == [] by { NoData(); }
    }
    TailGrows(s.queue, if isCcs then [] else [data], h'.start);
  }

  lemma NoData()
    ensures HandshakeData([]) == []
  {
  }

  lemma DataJoins(messages: seq<OutMessage>, m: OutMessage)
    ensures HandshakeData(messages + [m]) == HandshakeData(messages) + if m.isCcs then [] else [m.data]
  {
    assert (messages + [m])[..|messages|] == messages;
  }

  lemma TailGrows(a: seq<seq<byte>>, b: seq<seq<byte>>, i: nat)
    requires i <= |a|
    ensures (a + b)[i..] == a[i..] + b
  {
  }

  lemma QueueTimed(keys: KeySchedule, s: System, h: History, typ: byte, body: seq<byte>)
    requires keys.Ok() && Inv(keys, s) && Timed(keys, s, h)
    ensures var s' := Next(keys, s, Queue(typ, body));
            Inv(keys, s') && Timed(keys, s', Noted(h, Queue(typ, body), |s.queue|, |s'.queue|))
  {
    NextKeepsInv(keys, s, Queue(typ, body));
    var s' := Next(keys, s, Queue(typ, body));
    if s' != s {
      var data := MessageBytes(typ, |s.queue|, body);
      MessageBytesWhole(typ, |s.queue|, body);
      var t := AddToFlight(s.sender, data, false).value;
      hide ParseFragment, IsWhole, MessageBytes, StreamInEpoch, AddToFlight, Inv, ReaderInEpoch, HandshakeData;
      var h' := Noted(h, Queue(typ, body), |s.queue|, |s'.queue|);
      assert MessageInEpoch(h', OutMessage(data, h.changes, false));
      Joins(keys, s, h, h', s'.queue, data, false, t);
      HistoryKeeps(keys, s, h, h');
    }
  }

  lemma CcsTimed(keys: KeySchedule, s: System, h: History)
    requires keys.Ok() && Inv(keys, s) && Timed(keys, s, h)
    ensures var s' := Next(keys, s, QueueCcs);
            Inv(keys, s') && Timed(keys, s', Noted(h, QueueCcs, |s.queue|, |s'.queue|))
  {
    NextKeepsInv(keys, s, QueueCcs);
    hide StreamInEpoch, MessageInEpoch, AddToFlight, Inv, Next, ReaderInEpoch, HandshakeData;
    var h' := Noted(h, QueueCcs, |s.queue|, |s.queue|);
    var t := AddToFlight(s.sender, [], true);
    CcsStep(keys, s);
    HistoryKeeps(keys, s, h, h');
    assert MessageInEpoch(h', OutMessage([], h.changes, true)) by {
      CcsInEpoch(h', h.changes);
    }
    if !s.sender.broken && t.Some? {
      Joins(keys, s, h, h', s.queue, [], true, t.value);
    }
  }

  lemma CcsInEpoch(h: History, epoch: nat)
    requires epoch in h.ccsAt
    ensures MessageInEpoch(h, OutMessage([], epoch, true))
  {
  }

  lemma CcsStep(keys: KeySchedule, s: System)
    requires Inv(keys, s)
    ensures var t := AddToFlight(s.sender, [], true);
            && Next(keys, s, QueueCcs) == (if s.sender.broken || t == None then s else s.(sender := t.value))
            && (t == None ==> !s.sender.complete)
  {
    hide Inv;
  }

  lemma SendTimed(keys: KeySchedule, s: System, h: History, mtu: nat, accepted: bool)
    requires keys.Ok() && Inv(keys, s) && Timed(keys, s, h)
    ensures var s' := Next(keys, s, SendPacket(mtu, accepted)); Inv(keys, s') && Timed(keys, s', h)
  {
    NextKeepsInv(keys, s, SendPacket(mtu, accepted));
    SendStep(keys, s, mtu, accepted);
    var t, s' := s.sender, Next(keys, s, SendPacket(mtu, accepted));
    hide StreamInEpoch, SealNextPacket, PackMessages, MessageInEpoch, ReaderInEpoch, HandshakeData, KeysInstalled, CursorOk, Next, Inv;
    if s'.network != s.network {
      PacketInEpoch(keys, h, t.w, mtu, t.messages, t.cursor);
    }
  }

  lemma SendStep(keys: KeySchedule, s: System, mtu: nat, accepted: bool)
    requires Inv(keys, s)
    ensures var t, s' := s.sender, Next(keys, s, SendPacket(mtu, accepted));
            && KeysInstalled(keys, t.w) && WriteSideFits(t.w) && CursorOk(t.messages, t.cursor)
            && s' == s.(sender := s'.sender, network := s'.network) && s'.sender.w.epoch == t.w.epoch
            && s'.sender == t.(w := s'.sender.w, cursor := s'.sender.cursor, broken := s'.sender.broken)
            && (t.broken ==> s'.sender.broken)
            && (s'.network == s.network ||
                (PackMessages(t.w, mtu, t.messages, t.cursor).Some?
                 && s'.network == s.network + {PackMessages(t.w, mtu, t.messages, t.cursor).value.bytes}))
  {
    hide PackMessages, HonestStream, RingAgrees, FromQueue, WellFormed, BodyLen;
    var t := s.sender;
    if !t.broken && t.cursor.written < |t.messages| && SealNextPacket(t.w, mtu, t.messages, t.cursor).Some? {
      PacketTiles(t.w, mtu, t.messages, t.cursor);
    }
  }

  lemma ReadTimed(keys: KeySchedule, s: System, h: History, closed: bool, onAlert: OpenStatus, maxLen: nat)
    requires keys.Ok() && Inv(keys, s) && Timed(keys, s, h)
    ensures var s' := Next(keys, s, OpenBuffered(closed, onAlert, maxLen)); Inv(keys, s') && Timed(keys, s', h)
  {
    NextKeepsInv(keys, s, OpenBuffered(closed, onAlert, maxLen));
    RingOfInv(keys, s);
    OpenStep(keys, s, closed, onAlert, maxLen);
    hide StreamInEpoch, MessageInEpoch, ReaderInEpoch, HandshakeData, RingInv, OpenHandshake, Next, Inv;
    OpenInEpoch(keys, h, s.reader, maxLen, closed, onAlert, s.buffer);
  }

  lemma RingOfInv(keys: KeySchedule, s: System)
    requires Inv(keys, s)
    ensures RingInv(s.reader.ring)
  {
    RingInvOfAgrees(s.queue, s.reader.ring);
  }

  lemma OpenStep(keys: KeySchedule, s: System, closed: bool, onAlert: OpenStatus, maxLen: nat)
    requires Inv(keys, s) && RingInv(s.reader.ring)
    ensures var (reader', _, consumed) := OpenHandshake(s.reader, keys.reader(s.reader.epoch), maxLen, closed, onAlert, s.buffer);
            && consumed <= |s.buffer|
            && Next(keys, s, OpenBuffered(closed, onAlert, maxLen)) == s.(reader := reader', buffer := s.buffer[consumed..])
  {
    hide OpenHandshake, Inv;
    OpenConsumes(s.reader, keys.reader(s.reader.epoch), maxLen, closed, onAlert, s.buffer);
  }

  lemma ReleaseTimed(keys: KeySchedule, s: System, h: History)
    requires keys.Ok() && Inv(keys, s) && Timed(keys, s, h)
    ensures var s' := Next(keys, s, NextMessage); Inv(keys, s') && Timed(keys, s', h)
  {
    NextKeepsInv(keys, s, NextMessage);
    hide StreamInEpoch, MessageInEpoch, HandshakeData, HonestStream, RingAgrees, SenderOk, Raw;
    assert |Advance(s.reader.ring).slots| == MAX_HANDSHAKE_FLIGHT;
  }

  /** Every step keeps to what is known. */
  lemma NextTimed(keys: KeySchedule, s: System, h: History, a: Action)
    requires keys.Ok() && Inv(keys, s) && Timed(keys, s, h)
    ensures var s' := Next(keys, s, a);
            Inv(keys, s') && Timed(keys, s', Noted(h, a, |s.queue|, |s'.queue|))
  {
    NextKeepsInv(keys, s, a);
    match a
    case Queue(typ, body) => QueueTimed(keys, s, h, typ, body);
    case QueueCcs => CcsTimed(keys, s, h);
    case SendPacket(mtu, accepted) => SendTimed(keys, s, h, mtu, accepted);
    case OpenBuffered(closed, onAlert, maxLen) => ReadTimed(keys, s, h, closed, onAlert, maxLen);
    case NextMessage => ReleaseTimed(keys, s, h);
    case _ => OtherTimed(keys, s, h, a);
  }

  /** Steps that neither queue, send, read nor release. */
  lemma OtherTimed(keys: KeySchedule, s: System, h: History, a: Action)
    requires keys.Ok() && Inv(keys, s) && Timed(keys, s, h) && Inv(keys, Next(keys, s, a))
    requires a.ChangeWriteState? || a.Flush? || a.Rewind? || a.Deliver? || a.Get? || a.TakeCcs? || a.ChangeReadState?
    ensures Timed(keys, Next(keys, s, a), Noted(h, a, |s.queue|, |s.queue|))
  {
    hide StreamInEpoch, MessageInEpoch, HandshakeData, Next, Inv, RingInv, ReaderInEpoch, HasUnprocessed;
    var h' := Noted(h, a, |s.queue|, |s.queue|);
    HistoryKeeps(keys, s, h, h');
    RingOfInv(keys, s);
    OtherStep(keys, s, a);
    OtherReader(h', s.reader, Next(keys, s, a).reader);
  }

  lemma OtherReader(h': History, s: ReadSide, s': ReadSide)
    requires |s.ring.slots| == MAX_HANDSHAKE_FLIGHT && s'.ring == s.ring && ReaderInEpoch(h', s)
    requires s'.hasMessage == s.hasMessage || s'.hasMessage
    requires s'.hasChangeCipherSpec ==> s.hasChangeCipherSpec
    requires s'.epoch == s.epoch || (!HasUnprocessed(s) && s'.hasMessage == s.hasMessage)
    ensures ReaderInEpoch(h', s')
  {
  }

  lemma OtherStep(keys: KeySchedule, s: System, a: Action)
    requires Inv(keys, s)
    requires a.ChangeWriteState? || a.Flush? || a.Rewind? || a.Deliver? || a.Get? || a.TakeCcs? || a.ChangeReadState?
    ensures var s' := Next(keys, s, a);
            && s'.queue == s.queue && s'.network == s.network && (s'.buffer == s.buffer || s'.buffer in s.network)
            && s'.sender.messages == s.sender.messages && s'.sender.broken == s.sender.broken
            && s'.sender.complete == (s.sender.complete || a.Flush?)
            && s'.sender.w.epoch == (if a.ChangeWriteState? && s.sender.w.epoch < 0xffff then s.sender.w.epoch + 1 else s.sender.w.epoch)
            && s'.reader.ring == s.reader.ring
            && (s'.reader.hasMessage == s.reader.hasMessage || s'.reader.hasMessage)
            && (s'.reader.hasChangeCipherSpec ==> s.reader.hasChangeCipherSpec)
            && (s'.reader.epoch == s.reader.epoch || (!HasUnprocessed(s.reader) && s' == s.(reader := s.reader.(epoch := s'.reader.epoch, window := s'.reader.window))))
  {
    hide HonestStream, RingAgrees, FromQueue, CursorOk, HasUnprocessed;
  }

  lemma {:induction false} RunTimed(keys: KeySchedule, s: System, h: History, actions: seq<Action>)
    requires keys.Ok() && Inv(keys, s) && Timed(keys, s, h)
    ensures Inv(keys, Run(keys, s, actions)) && Timed(keys, Run(keys, s, actions), HistoryOf(keys, s, actions, h))
    decreases |actions|
  {
    hide Inv, Timed, Next, Noted;
    if actions != [] {
      NextTimed(keys, s, h, actions[0]);
      NextKeepsInv(keys, s, actions[0]);
      var s' := Next(keys, s, actions[0]);
      RunTimed(keys, s', Noted(h, actions[0], |s.queue|, |s'.queue|), actions[1..]);
    }
  }

  lemma InitTimed(keys: KeySchedule)
    requires keys.Ok()
    ensures Inv(keys, Init(keys)) && Timed(keys, Init(keys), NOTHING_YET)
  {
    InitInv(keys);
    assert ParseRecord([]) == None;
  }

  /** In every run, every packet ever sent is whole records, each of which opens under the keys of the
      epoch in its header and carries a fragment of a message, or a ChangeCipherSpec, that was queued when
      as many key changes had happened as that epoch says: also when it is sent again, after any number
      of further changes. */
  lemma RecordsKeepTheirEpoch(keys: KeySchedule, actions: seq<Action>, p: seq<byte>)
    requires keys.Ok() && Inv(keys, Init(keys)) && p in Run(keys, Init(keys), actions).network
    ensures StreamInEpoch(keys, HistoryOf(keys, Init(keys), actions, NOTHING_YET), p)
  {
    InitTimed(keys);
    RunTimed(keys, Init(keys), NOTHING_YET, actions);
  }

  /** In every run, a message that is ready for the handshake to get was queued in the epoch being read,
      and so was a ChangeCipherSpec that waits: nothing left over crosses a change of keys. */
  lemma ReadInItsEpoch(keys: KeySchedule, actions: seq<Action>)
    requires keys.Ok() && Inv(keys, Init(keys))
    ensures var s, h := Run(keys, Init(keys), actions).reader, HistoryOf(keys, Init(keys), actions, NOTHING_YET);
            && RingInv(s.ring)
            && (CurrentComplete(s.ring) && !s.hasMessage ==> s.ring.readSeq < |h.queuedAt| && h.queuedAt[s.ring.readSeq] == s.epoch)
            && (s.hasChangeCipherSpec ==> s.epoch in h.ccsAt)
  {
    InitTimed(keys);
    RunTimed(keys, Init(keys), NOTHING_YET, actions);
    var s := Run(keys, Init(keys), actions);
    RingInvOfAgrees(s.queue, s.reader.ring);
    if CurrentComplete(s.reader.ring) && !s.reader.hasMessage {
      SlotHoldsItsNumber(s.reader.ring, s.reader.ring.readSeq);
    }
  }

  /** In every run, what a sender that has not failed would send again is exactly the messages queued
      since the last flush that others were queued after. */
  lemma FlightIsSinceFlush(keys: KeySchedule, actions: seq<Action>)
    requires keys.Ok() && Inv(keys, Init(keys))
    ensures var s, h := Run(keys, Init(keys), actions), HistoryOf(keys, Init(keys), actions, NOTHING_YET);
            !s.sender.broken ==> h.start <= |s.queue| && HandshakeData(s.sender.messages) == s.queue[h.start..]
  {
    InitTimed(keys);
    RunTimed(keys, Init(keys), NOTHING_YET, actions);
  }

  /** Something of this epoch is left, other than the message at hand: a ChangeCipherSpec, or part of a
      message of the window. */
  lemma UnprocessedIff(s: ReadSide)
    requires RingInv(s.ring)
    ensures HasUnprocessed(s) <==>
              || s.hasChangeCipherSpec
              || exists n: nat :: (if s.hasMessage then s.ring.readSeq + 1 else s.ring.readSeq) <= n < s.ring.readSeq + MAX_HANDSHAKE_FLIGHT
                   && Holds(s.ring, n)
  {
    var r := s.ring;
    if exists i :: 0 <= i < MAX_HANDSHAKE_FLIGHT && r.slots[i].Some? && !(s.hasMessage && i == r.readSeq % MAX_HANDSHAKE_FLIGHT) {
      var i :| 0 <= i < MAX_HANDSHAKE_FLIGHT && r.slots[i].Some? && !(s.hasMessage && i == r.readSeq % MAX_HANDSHAKE_FLIGHT);
      assert Holds(r, r.slots[i].value.seqNum);
    }
  }

  /** The ring has something of message n. */
  ghost predicate Holds(r: Ring, n: nat)
    requires |r.slots| == MAX_HANDSHAKE_FLIGHT
  {
    exists i :: 0 <= i < MAX_HANDSHAKE_FLIGHT && r.slots[i].Some? && r.slots[i].value.seqNum == n
  }
}
