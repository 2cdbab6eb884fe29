/** The sending half of the DTLS handshake transport: sealing records with fresh numbers, cutting
    messages into fragments, packing fragments into packets of at most one MTU. */
module DtlsSend {
  import opened Options
  import opened Words
  import opened DtlsWire
  import opened Reassembly
  import opened Aead
  import opened DtlsReceive

  // ---------- dtls_seal_record and dtls1_set_write_state ----------

  /** Record protection for the current epoch and for the one before it. */
  datatype WriteSide = WriteSide(epoch: nat, aead: Context, writeSeq: nat, lastAead: Context, lastWriteSeq: nat)

  datatype Sealed = Sealed(w: WriteSide, record: seq<byte>)

  function WriteAead(w: WriteSide, previous: bool): Context {
    if previous then w.lastAead else w.aead
  }

  function MaxSealOverhead(w: WriteSide, previous: bool): nat {
    RT_HEADER_LENGTH + WriteAead(w, previous).MaxOverhead()
  }

  function SealPrefixLen(w: WriteSide, previous: bool): nat {
    RT_HEADER_LENGTH + WriteAead(w, previous).ExplicitNonceLen()
  }

  predicate WriteSideFits(w: WriteSide) {
    && w.epoch < 0x1_0000 && w.writeSeq < 0x1_0000_0000_0000 && w.lastWriteSeq < 0x1_0000_0000_0000
    && w.aead.recordVersion < 0x1_0000
  }

  ghost predicate SameKeys(a: WriteSide, b: WriteSide) {
    a.epoch == b.epoch && a.aead == b.aead && a.lastAead == b.lastAead
  }

  /** The header the next record sealed in the chosen epoch carries. The version is always that of
      the current context. */
  function NextHeader(w: WriteSide, typ: byte, previous: bool): RecordHeader
    requires previous ==> w.epoch >= 1
  {
    if previous then RecordHeader(typ, w.aead.recordVersion, w.epoch - 1, w.lastWriteSeq)
    else RecordHeader(typ, w.aead.recordVersion, w.epoch, w.writeSeq)
  }

  /** dtls_seal_record; None stands for every error, among them the wrap of the 48-bit number. */
  function SealRecord(w: WriteSide, maxOut: nat, typ: byte, plain: seq<byte>, previous: bool): (s: Option<Sealed>)
    requires WriteSideFits(w) && (previous ==> w.epoch >= 1)
    ensures s.Some? ==>
              && WriteSideFits(s.value.w) && SameKeys(s.value.w, w)
              && RT_HEADER_LENGTH <= |s.value.record| <= maxOut
  {
    if maxOut < RT_HEADER_LENGTH then None
    else
      var hdr := NextHeader(w, typ, previous);
      match WriteAead(w, previous).Seal(maxOut - RT_HEADER_LENGTH, typ, hdr.version, hdr.Number(), plain)
      case None => None
      case Some(cipher) =>
        if hdr.seqNum == 0xffff_ffff_ffff || |cipher| >= 0x1_0000 then None
        else
          var w' := if previous then w.(lastWriteSeq := w.lastWriteSeq + 1) else w.(writeSeq := w.writeSeq + 1);
          Some(Sealed(w', RecordBytes(hdr, cipher)))
  }

  /** dtls1_set_write_state. */
  function SetWriteState(w: WriteSide, aead: Context): WriteSide {
    WriteSide((w.epoch + 1) % 0x1_0000, aead, 0, w.aead, w.writeSeq)
  }

  // ---------- record numbers ----------

  /** Every number emitted so far lies below the counter of its epoch. */
  ghost predicate NumbersInv(w: WriteSide, emitted: set<(nat, nat)>) {
    forall e, s :: (e, s) in emitted ==>
      && e <= w.epoch
      && (e == w.epoch ==> s < w.writeSeq)
      && (e + 1 == w.epoch ==> s < w.lastWriteSeq)
  }

  datatype WriteOp =
    | SealOp(maxOut: nat, typ: byte, plain: seq<byte>, previous: bool)
    | ChangeOp(aead: Context)

  ghost predicate Allowed(w: WriteSide, op: WriteOp) {
    match op
    case SealOp(maxOut, typ, plain, previous) =>
      WriteSideFits(w) && (previous ==> w.epoch >= 1) && SealRecord(w, maxOut, typ, plain, previous).Some?
    case ChangeOp(aead) => w.epoch < 0xffff
  }

  ghost function After(w: WriteSide, op: WriteOp): WriteSide
    requires Allowed(w, op)
  {
    match op
    case SealOp(maxOut, typ, plain, previous) => SealRecord(w, maxOut, typ, plain, previous).value.w
    case ChangeOp(aead) => SetWriteState(w, aead)
  }

  /** The numbers emitted by a run, up to its first wrap, overflow or sealing failure. */
  ghost function Emitted(w: WriteSide, ops: seq<WriteOp>): seq<(nat, nat)>
    decreases |ops|
  {
    if ops == [] || !Allowed(w, ops[0]) then []
    else
      var rest := Emitted(After(w, ops[0]), ops[1..]);
      if ops[0].SealOp? then
        var h := NextHeader(w, ops[0].typ, ops[0].previous);
        [(h.epoch, h.seqNum)] + rest
      else rest
  }

  /** The number that a step emits, if it seals. */
  ghost function NumberOf(w: WriteSide, op: WriteOp): (n: seq<(nat, nat)>)
    requires Allowed(w, op)
    ensures |n| <= 1
  {
    if op.SealOp? then [(NextHeader(w, op.typ, op.previous).epoch, NextHeader(w, op.typ, op.previous).seqNum)] else []
  }

  lemma EmittedStep(w: WriteSide, ops: seq<WriteOp>)
    requires Emitted(w, ops) != []
    ensures ops != [] && Allowed(w, ops[0]) && Emitted(w, ops) == NumberOf(w, ops[0]) + Emitted(After(w, ops[0]), ops[1..])
  {
    hide Allowed, After;
  }

  /** The numbers emitted so far, and one more. */
  ghost function WithNumber(emitted: set<(nat, nat)>, n: seq<(nat, nat)>): set<(nat, nat)> {
    if n == [] then emitted else emitted + {n[0]}
  }

  lemma StepEmitsFresh(w: WriteSide, emitted: set<(nat, nat)>, op: WriteOp)
    requires NumbersInv(w, emitted) && Allowed(w, op)
    ensures var n := NumberOf(w, op);
            (n != [] ==> n[0] !in emitted) && NumbersInv(After(w, op), WithNumber(emitted, n))
  {
    hide RecordBytes, Context.Seal;
  }

  ghost predicate DistinctNumbers(a: seq<(nat, nat)>, emitted: set<(nat, nat)>) {
    && (forall i :: 0 <= i < |a| ==> a[i] !in emitted)
    && (forall i, j :: 0 <= i < j < |a| ==> a[i] != a[j])
  }

  lemma DistinctAhead(n: seq<(nat, nat)>, rest: seq<(nat, nat)>, emitted: set<(nat, nat)>)
    requires |n| <= 1 && (n != [] ==> n[0] !in emitted) && DistinctNumbers(rest, WithNumber(emitted, n))
    ensures DistinctNumbers(n + rest, emitted)
  {
    var all := n + rest;
    forall i | 0 <= i < |all|
      ensures all[i] !in emitted
    {
      assert all[i] == if i < |n| then n[0] else rest[i - |n|];
    }
  }

  /** Over any interleaving of seals in the current and the previous epoch with changes of the
      write state, no (epoch, sequence number) pair is emitted twice. */
  lemma {:induction false} RecordNumbersNeverRepeat(w: WriteSide, emitted: set<(nat, nat)>, ops: seq<WriteOp>)
    requires NumbersInv(w, emitted)
    ensures DistinctNumbers(Emitted(w, ops), emitted)
    decreases |ops|
  {
    if Emitted(w, ops) != [] {
      hide NumbersInv, Allowed, After, NumberOf, Emitted, DistinctNumbers, WithNumber;
      EmittedStep(w, ops);
      StepEmitsFresh(w, emitted, ops[0]);
      var n, v := NumberOf(w, ops[0]), After(w, ops[0]);
      RecordNumbersNeverRepeat(v, WithNumber(emitted, n), ops[1..]);
      DistinctAhead(n, Emitted(v, ops[1..]), emitted);
    }
  }

  /** How many of these numbers are of epoch e. */
  function CountOf(a: seq<(nat, nat)>, e: nat): nat {
    if a == [] then 0 else CountOf(a[..|a| - 1], e) + if a[|a| - 1].0 == e then 1 else 0
  }

  /** The counters say how many records of their epochs there have been, and of later ones there are none. */
  ghost predicate Counted(w: WriteSide, emitted: seq<(nat, nat)>) {
    && w.writeSeq == CountOf(emitted, w.epoch) && (w.epoch >= 1 ==> w.lastWriteSeq == CountOf(emitted, w.epoch - 1))
    && forall e :: e > w.epoch ==> CountOf(emitted, e) == 0
  }

  lemma CountSnoc(a: seq<(nat, nat)>, n: (nat, nat), e: nat)
    ensures CountOf(a + [n], e) == CountOf(a, e) + if n.0 == e then 1 else 0
  {
    assert (a + [n])[..|a|] == a;
  }

  lemma OpCounted(w: WriteSide, emitted: seq<(nat, nat)>, op: WriteOp)
    requires Counted(w, emitted) && Allowed(w, op)
    ensures var n := NumberOf(w, op);
            && Counted(After(w, op), emitted + n)
            && (n != [] ==> n[0].1 == CountOf(emitted, n[0].0))
  {
    hide CountOf, RecordBytes, Context.Seal;
    assert emitted + [] == emitted;
    if op.SealOp? {
      var n := NumberOf(w, op)[0];
      forall e
        ensures CountOf(emitted + [n], e) == CountOf(emitted, e) + if n.0 == e then 1 else 0
      {
        CountSnoc(emitted, n, e);
      }
    }
  }

  /** Every record of a run has as its number the count of the records of its epoch before it: each epoch
      counts from 0 without a gap, also when records of two epochs alternate. */
  lemma {:induction false} NumbersConsecutive(w: WriteSide, emitted: seq<(nat, nat)>, ops: seq<WriteOp>, i: nat)
    requires Counted(w, emitted) && i < |Emitted(w, ops)|
    ensures var (e, n) := Emitted(w, ops)[i]; n == CountOf(emitted + Emitted(w, ops)[..i], e)
    decreases |ops|
  {
    hide Counted, Allowed, After, CountOf, NumberOf, Emitted;
    EmittedStep(w, ops);
    OpCounted(w, emitted, ops[0]);
    var n, rest := NumberOf(w, ops[0]), Emitted(After(w, ops[0]), ops[1..]);
    if i >= |n| {
      NumbersConsecutive(After(w, ops[0]), emitted + n, ops[1..], i - |n|);
      assert emitted + n + rest[..i - |n|] == emitted + Emitted(w, ops)[..i];
    } else {
      assert emitted + Emitted(w, ops)[..0] == emitted;
    }
  }

  // ---------- outgoing messages ----------

  datatype OutMessage = OutMessage(data: seq<byte>, epoch: nat, isCcs: bool)

  /** The bytes that dtls1_init_message and dtls1_finish_message build: one fragment covering the
      whole body. */
  function MessageBytes(typ: byte, seqNum: nat, body: seq<byte>): seq<byte>
    requires seqNum < 0x1_0000 && |body| < 0x100_0000
  {
    HeaderBytes(WholeHeader(typ, |body|, seqNum)) + body
  }

  /** The message parses as a single whole fragment, as seal_next_message demands. */
  predicate IsWhole(data: seq<byte>) {
    match ParseFragment(data)
    case None => false
    case Some(f) => f.hdr.fragOff == 0 && f.hdr.fragLen == |f.body| == f.hdr.msgLen && f.rest == []
  }

  lemma WholeFacts(data: seq<byte>)
    requires IsWhole(data)
    ensures ParseFragment(data).Some?
    ensures var f := ParseFragment(data).value; f.hdr.Fits() && |f.body| == f.hdr.msgLen < 0x100_0000
  {
    AssembledOfParse(data);
  }

  lemma MessageBytesWhole(typ: byte, seqNum: nat, body: seq<byte>)
    requires seqNum < 0x1_0000 && |body| < 0x100_0000
    ensures ParseFragment(MessageBytes(typ, seqNum, body)) == Some(Fragment(WholeHeader(typ, |body|, seqNum), body, []))
    ensures IsWhole(MessageBytes(typ, seqNum, body))
  {
    assert MessageBytes(typ, seqNum, body) == HeaderBytes(WholeHeader(typ, |body|, seqNum)) + body + [];
    ParseOfAssembled(WholeHeader(typ, |body|, seqNum), body, []);
  }

  predicate WellFormed(m: OutMessage) {
    m.isCcs || IsWhole(m.data)
  }

  function BodyLen(m: OutMessage): nat
    requires WellFormed(m)
  {
    if m.isCcs then 0 else |ParseFragment(m.data).value.body|
  }

  // ---------- seal_next_message and seal_next_packet ----------

  /** Bytes [off, off + len) of message msg of the flight, as one record. */
  datatype Piece = Piece(msg: nat, off: nat, len: nat)

  datatype Cursor = Cursor(written: nat, offset: nat)

  datatype SealResult =
    | SealError
    | NoProgress
    | PartialSeal(w: WriteSide, offset: nat, record: seq<byte>, len: nat)
    | SealSuccess(w: WriteSide, record: seq<byte>, len: nat)

  /** The fragment of a whole message that starts at offset and carries todo body bytes. */
  function FragmentBytes(f: Fragment, offset: nat, todo: nat): seq<byte>
    requires f.hdr.Fits() && offset + todo <= |f.body| < 0x100_0000
  {
    HeaderBytes(f.hdr.(fragOff := offset, fragLen := todo)) + f.body[offset..offset + todo]
  }

  /** seal_next_message. What it seals fits the room given. */
  function SealNextMessage(w: WriteSide, maxOut: nat, msg: OutMessage, offset: nat): (r: SealResult)
    requires WriteSideFits(w)
    ensures r.SealSuccess? || r.PartialSeal? ==>
              WriteSideFits(r.w) && SameKeys(r.w, w) && RT_HEADER_LENGTH <= |r.record| <= maxOut
  {
    var previous := w.epoch >= 1 && msg.epoch == w.epoch - 1;
    if !previous && msg.epoch != w.epoch then SealError
    else
      var overhead := MaxSealOverhead(w, previous);
      if msg.isCcs then
        if maxOut < 1 + overhead then NoProgress
        else
          match SealRecord(w, maxOut, RT_CHANGE_CIPHER_SPEC, [MT_CCS], previous)
          case None => SealError
          case Some(s) => SealSuccess(s.w, s.record, 0)
      else if !IsWhole(msg.data) || offset > |ParseFragment(msg.data).value.body| then SealError
      else
        AssembledOfParse(msg.data);
        var f := ParseFragment(msg.data).value;
        if maxOut < HM_HEADER_LENGTH + 1 + overhead || maxOut < SealPrefixLen(w, previous) then NoProgress
        else
          var room := maxOut - HM_HEADER_LENGTH - overhead;
          var left := |f.body| - offset;
          var todo := if left > room then room else left;
          match SealRecord(w, maxOut, RT_HANDSHAKE, FragmentBytes(f, offset, todo), previous)
          case None => SealError
          case Some(s) =>
            if todo == left then SealSuccess(s.w, s.record, todo) else PartialSeal(s.w, offset + todo, s.record, todo)
  }

  /** A sealed packet: the state after it, its bytes, and the pieces of the flight it carries. */
  datatype Packet = Packet(w: WriteSide, cursor: Cursor, bytes: seq<byte>, pieces: seq<Piece>)

  /** The loop of seal_next_packet; None on a sealing error. An empty `pieces` means no progress. */
  function PackMessages(w: WriteSide, maxOut: nat, messages: seq<OutMessage>, c: Cursor): Option<Packet>
    requires WriteSideFits(w) && c.written <= |messages|
    decreases |messages| - c.written
  {
    if c.written == |messages| then Some(Packet(w, c, [], []))
    else
      match SealNextMessage(w, maxOut, messages[c.written], c.offset)
      case SealError => None
      case NoProgress => Some(Packet(w, c, [], []))
      case PartialSeal(w', offset, record, len) =>
        Some(Packet(w', Cursor(c.written, offset), record, [Piece(c.written, c.offset, len)]))
      case SealSuccess(w', record, len) =>
        Prepend(record, [Piece(c.written, c.offset, len)],
                PackMessages(w', maxOut - |record|, messages, Cursor(c.written + 1, 0)))
  }

  /** A packet with more records before its own. */
  function Prepend(bytes: seq<byte>, pieces: seq<Piece>, p: Option<Packet>): Option<Packet> {
    match p
    case None => None
    case Some(q) => Some(Packet(q.w, q.cursor, bytes + q.bytes, pieces + q.pieces))
  }

  /** Prepending to an empty packet, and an empty prefix. */
  lemma PrependNothing(bytes: seq<byte>, pieces: seq<Piece>, w: WriteSide, c: Cursor, p: Option<Packet>)
    ensures Prepend(bytes, pieces, Some(Packet(w, c, [], []))) == Some(Packet(w, c, bytes, pieces))
    ensures Prepend([], [], p) == p
  {
    assert bytes + [] == bytes && pieces + [] == pieces;
    if p.Some? {
      assert [] + p.value.bytes == p.value.bytes && [] + p.value.pieces == p.value.pieces;
    }
  }

  lemma PrependTwice(a: seq<byte>, ps: seq<Piece>, b: seq<byte>, qs: seq<Piece>, p: Option<Packet>)
    ensures Prepend(a, ps, Prepend(b, qs, p)) == Prepend(a + b, ps + qs, p)
  {
    if p.Some? {
      assert a + (b + p.value.bytes) == (a + b) + p.value.bytes;
      assert ps + (qs + p.value.pieces) == (ps + qs) + p.value.pieces;
    }
  }

  /** One iteration of the loop, by the outcome of sealing the next message. */
  lemma PackStep(w: WriteSide, maxOut: nat, messages: seq<OutMessage>, c: Cursor)
    requires WriteSideFits(w) && c.written <= |messages|
    ensures c.written == |messages| ==> PackMessages(w, maxOut, messages, c) == Some(Packet(w, c, [], []))
    ensures c.written < |messages| ==>
              PackMessages(w, maxOut, messages, c) ==
              match SealNextMessage(w, maxOut, messages[c.written], c.offset)
              case SealError => None
              case NoProgress => Some(Packet(w, c, [], []))
              case PartialSeal(w', offset, record, len) =>
                Some(Packet(w', Cursor(c.written, offset), record, [Piece(c.written, c.offset, len)]))
              case SealSuccess(w', record, len) =>
                Prepend(record, [Piece(c.written, c.offset, len)],
                        PackMessages(w', maxOut - |record|, messages, Cursor(c.written + 1, 0)))
  {
    hide SealNextMessage;
  }

  /** seal_next_packet: an MTU too small for any progress is an error. */
  function SealNextPacket(w: WriteSide, maxOut: nat, messages: seq<OutMessage>, c: Cursor): Option<Packet>
    requires WriteSideFits(w) && c.written <= |messages|
  {
    match PackMessages(w, maxOut, messages, c)
    case None => None
    case Some(p) => if p.pieces == [] then None else Some(p)
  }

  // ---------- tiling ----------

  predicate CursorOk(messages: seq<OutMessage>, c: Cursor) {
    && (forall m :: m in messages ==> WellFormed(m))
    && c.written <= |messages|
    && c.offset <= if c.written < |messages| then BodyLen(messages[c.written]) else 0
  }

  /** Where reading the pieces one after the other leaves a reader that starts at c. None when a
      piece does not start exactly where the one before it ended, or makes no progress. */
  function Follow(messages: seq<OutMessage>, c: Cursor, pieces: seq<Piece>): Option<Cursor>
    requires forall m :: m in messages ==> WellFormed(m)
    decreases |pieces|
  {
    if pieces == [] then Some(c)
    else
      var p := pieces[0];
      if p.msg != c.written || p.msg >= |messages| || p.off != c.offset then None
      else
        var len := BodyLen(messages[p.msg]);
        if p.off + p.len == len then Follow(messages, Cursor(c.written + 1, 0), pieces[1..])
        else if 0 < p.len < len - p.off then Follow(messages, Cursor(c.written, p.off + p.len), pieces[1..])
        else None
  }

  /** How far into message m a reader at c has come. */
  function Reached(messages: seq<OutMessage>, c: Cursor, m: nat): nat
    requires m < |messages| && WellFormed(messages[m])
  {
    if m < c.written then BodyLen(messages[m]) else if m == c.written then c.offset else 0
  }

  /** The body bytes of message m carried by the pieces, in the order of the pieces. */
  function Carried(body: seq<byte>, m: nat, pieces: seq<Piece>): seq<byte>
    decreases |pieces|
  {
    if pieces == [] then []
    else
      var p := pieces[0];
      (if p.msg == m && p.off + p.len <= |body| then body[p.off..p.off + p.len] else []) + Carried(body, m, pieces[1..])
  }

  /** Pieces that follow from c to d carry, of every message, exactly its bytes between c and d:
      in order, with no gap and no overlap. */
  lemma {:induction false} FollowTiles(messages: seq<OutMessage>, c: Cursor, pieces: seq<Piece>, m: nat, body: seq<byte>)
    requires CursorOk(messages, c) && Follow(messages, c, pieces).Some?
    requires m < |messages| && |body| == BodyLen(messages[m])
    ensures var d := Follow(messages, c, pieces).value;
            && CursorOk(messages, d)
            && Reached(messages, c, m) <= Reached(messages, d, m) <= |body|
            && Carried(body, m, pieces) == body[Reached(messages, c, m)..Reached(messages, d, m)]
    decreases |pieces|
  {
    hide BodyLen, WellFormed;
    if pieces != [] {
      var p := pieces[0];
      var next := if p.off + p.len == BodyLen(messages[p.msg]) then Cursor(c.written + 1, 0)
                  else Cursor(c.written, p.off + p.len);
      FollowTiles(messages, next, pieces[1..], m, body);
      var r0, r1 := Reached(messages, c, m), Reached(messages, next, m);
      var r2 := Reached(messages, Follow(messages, c, pieces).value, m);
      SlicesJoin(body, r0, r1, r2);
    }
  }

  lemma SlicesJoin(s: seq<byte>, i: nat, j: nat, k: nat)
    requires i <= j <= k <= |s|
    ensures s[i..j] + s[j..k] == s[i..k]
  {
  }

  lemma {:induction false} FollowAppend(messages: seq<OutMessage>, c: Cursor, a: seq<Piece>, b: seq<Piece>)
    requires forall m :: m in messages ==> WellFormed(m)
    requires Follow(messages, c, a).Some?
    ensures Follow(messages, c, a + b) == Follow(messages, Follow(messages, c, a).value, b)
    decreases |a|
  {
    if a == [] {
      assert a + b == b;
    } else {
      var p := a[0];
      assert (a + b)[1..] == a[1..] + b;
      var next := if p.off + p.len == BodyLen(messages[p.msg]) then Cursor(c.written + 1, 0)
                  else Cursor(c.written, p.off + p.len);
      FollowAppend(messages, next, a[1..], b);
    }
  }

  /** (messages left, bytes left of the next one) drops lexicographically from c to d. */
  predicate Closer(messages: seq<OutMessage>, c: Cursor, d: Cursor) {
    d.written > c.written || (d.written == c.written && d.offset > c.offset)
  }

  /** A packet advances the cursor along its own pieces, stays within the MTU, and brings the
      flight closer to its end whenever it carries anything. */
  lemma {:induction false} PacketTiles(w: WriteSide, maxOut: nat, messages: seq<OutMessage>, c: Cursor)
    requires WriteSideFits(w) && CursorOk(messages, c) && PackMessages(w, maxOut, messages, c).Some?
    ensures var p := PackMessages(w, maxOut, messages, c).value;
            && WriteSideFits(p.w) && SameKeys(p.w, w)
            && |p.bytes| <= maxOut
            && Follow(messages, c, p.pieces) == Some(p.cursor)
            && CursorOk(messages, p.cursor)
            && (p.pieces != [] ==> Closer(messages, c, p.cursor))
    decreases |messages| - c.written
  {
    hide SealNextMessage;
    if c.written < |messages| {
      var r := SealNextMessage(w, maxOut, messages[c.written], c.offset);
      PieceOfMessage(w, maxOut, messages[c.written], c.offset);
      if r.SealSuccess? {
        PacketTiles(r.w, maxOut - |r.record|, messages, Cursor(c.written + 1, 0));
        PacketCons(w, maxOut, messages, c);
      } else if r.PartialSeal? {
        assert PackMessages(w, maxOut, messages, c).value.pieces[1..] == [];
      }
    }
  }

  /** The shape of a packet whose first message was finished. */
  lemma PacketCons(w: WriteSide, maxOut: nat, messages: seq<OutMessage>, c: Cursor)
    requires WriteSideFits(w) && c.written < |messages| && PackMessages(w, maxOut, messages, c).Some?
    requires SealNextMessage(w, maxOut, messages[c.written], c.offset).SealSuccess?
    ensures var r := SealNextMessage(w, maxOut, messages[c.written], c.offset);
            var rest := PackMessages(r.w, maxOut - |r.record|, messages, Cursor(c.written + 1, 0));
            var p := PackMessages(w, maxOut, messages, c).value;
            && rest.Some?
            && p.pieces != [] && p.pieces[0] == Piece(c.written, c.offset, r.len) && p.pieces[1..] == rest.value.pieces
            && p.bytes == r.record + rest.value.bytes && p.w == rest.value.w && p.cursor == rest.value.cursor
  {
    hide SealNextMessage;
  }

  /** What one sealed record carries of its message. */
  lemma PieceOfMessage(w: WriteSide, maxOut: nat, msg: OutMessage, offset: nat)
    requires WriteSideFits(w) && WellFormed(msg) && offset <= BodyLen(msg)
    ensures var r := SealNextMessage(w, maxOut, msg, offset);
            && (r.SealSuccess? ==> offset + r.len == BodyLen(msg))
            && (r.PartialSeal? ==> 0 < r.len && offset + r.len == r.offset < BodyLen(msg))
  {
  }

  /** No room is wasted: a message of an epoch that has keys stalls exactly when not even one byte of it
      would fit, and is cut only when the record fills the packet to the overhead's estimate. */
  lemma SealsGreedily(w: WriteSide, maxOut: nat, msg: OutMessage, offset: nat)
    requires WriteSideFits(w) && WellFormed(msg) && offset <= BodyLen(msg)
    requires msg.epoch == w.epoch || (w.epoch >= 1 && msg.epoch == w.epoch - 1)
    ensures var r, overhead := SealNextMessage(w, maxOut, msg, offset), MaxSealOverhead(w, msg.epoch != w.epoch);
            && (r.NoProgress? <==> maxOut < overhead + if msg.isCcs then 1 else HM_HEADER_LENGTH + 1)
            && (r.PartialSeal? ==> HM_HEADER_LENGTH + r.len + overhead == maxOut)
  {
    hide SealRecord, IsWhole, ParseFragment;
    assert SealPrefixLen(w, msg.epoch != w.epoch) <= MaxSealOverhead(w, msg.epoch != w.epoch);
    if !msg.isCcs {
      WholeFacts(msg.data);
    }
  }

  /** With room for a fragment header and one byte, sealing never stalls. */
  lemma EnoughRoomProgresses(w: WriteSide, maxOut: nat, messages: seq<OutMessage>, c: Cursor)
    requires WriteSideFits(w) && CursorOk(messages, c) && c.written < |messages|
    requires forall previous :: maxOut >= HM_HEADER_LENGTH + 1 + MaxSealOverhead(w, previous)
    ensures PackMessages(w, maxOut, messages, c) == SealNextPacket(w, maxOut, messages, c)
  {
    var r := SealNextMessage(w, maxOut, messages[c.written], c.offset);
    var previous := w.epoch >= 1 && messages[c.written].epoch == w.epoch - 1;
    assert maxOut >= HM_HEADER_LENGTH + 1 + MaxSealOverhead(w, previous);
  }

  // ---------- send_flight ----------

  /** A run of send_flight iterations: the state reached, the packets that BIO_write accepted and
      the pieces they carry. */
  datatype FlightRun = FlightRun(w: WriteSide, cursor: Cursor, packets: seq<seq<byte>>, pieces: seq<Piece>)

  /** `accepted[i]` is the answer of BIO_write to the i-th packet; a refused packet rewinds the
      cursor, so that it is cut and sealed again later. */
  function RunFlight(w: WriteSide, mtu: nat, messages: seq<OutMessage>, c: Cursor, accepted: seq<bool>): Option<FlightRun>
    requires WriteSideFits(w) && CursorOk(messages, c)
    decreases |accepted|
  {
    if accepted == [] then Some(FlightRun(w, c, [], []))
    else
      match SealNextPacket(w, mtu, messages, c)
      case None => None
      case Some(p) =>
        PacketTiles(w, mtu, messages, c);
        if accepted[0] then
          match RunFlight(p.w, mtu, messages, p.cursor, accepted[1..])
          case None => None
          case Some(r) => Some(FlightRun(r.w, r.cursor, [p.bytes] + r.packets, p.pieces + r.pieces))
        else RunFlight(p.w, mtu, messages, c, accepted[1..])
  }

  /** Across any interleaving of refused and resumed writes, the pieces of the accepted packets lead
      from the start to the cursor, and no accepted packet exceeds the MTU. */
  lemma {:induction false} FlightTiles(w: WriteSide, mtu: nat, messages: seq<OutMessage>, c: Cursor, accepted: seq<bool>)
    requires WriteSideFits(w) && CursorOk(messages, c) && RunFlight(w, mtu, messages, c, accepted).Some?
    ensures var r := RunFlight(w, mtu, messages, c, accepted).value;
            && WriteSideFits(r.w) && SameKeys(r.w, w) && CursorOk(messages, r.cursor)
            && Follow(messages, c, r.pieces) == Some(r.cursor)
            && (forall i :: 0 <= i < |r.packets| ==> |r.packets[i]| <= mtu)
    decreases |accepted|
  {
    if accepted != [] {
      PacketTiles(w, mtu, messages, c);
      var p := SealNextPacket(w, mtu, messages, c).value;
      if accepted[0] {
        FlightTiles(p.w, mtu, messages, p.cursor, accepted[1..]);
        FollowAppend(messages, c, p.pieces, RunFlight(p.w, mtu, messages, p.cursor, accepted[1..]).value.pieces);
      } else {
        FlightTiles(p.w, mtu, messages, c, accepted[1..]);
      }
    }
  }

  /** A run followed by one more iteration. */
  function OneMore(r: FlightRun, mtu: nat, messages: seq<OutMessage>, ok: bool): Option<FlightRun>
    requires WriteSideFits(r.w) && CursorOk(messages, r.cursor)
  {
    match SealNextPacket(r.w, mtu, messages, r.cursor)
    case None => None
    case Some(p) =>
      Some(if ok then FlightRun(p.w, p.cursor, r.packets + [p.bytes], r.pieces + p.pieces)
           else FlightRun(p.w, r.cursor, r.packets, r.pieces))
  }

  lemma {:induction false} RunFlightSnoc(w: WriteSide, mtu: nat, messages: seq<OutMessage>, c: Cursor, accepted: seq<bool>, ok: bool)
    requires WriteSideFits(w) && CursorOk(messages, c) && RunFlight(w, mtu, messages, c, accepted).Some?
    ensures var r := RunFlight(w, mtu, messages, c, accepted).value;
            && WriteSideFits(r.w) && CursorOk(messages, r.cursor)
            && RunFlight(w, mtu, messages, c, accepted + [ok]) == OneMore(r, mtu, messages, ok)
    decreases |accepted|
  {
    hide PackMessages;
    FlightTiles(w, mtu, messages, c, accepted);
    if accepted == [] {
      assert (accepted + [ok])[1..] == [];
      var q := SealNextPacket(w, mtu, messages, c);
      if q.Some? {
        PacketTiles(w, mtu, messages, c);
        assert [q.value.bytes] + [] == [] + [q.value.bytes];
        assert q.value.pieces + [] == [] + q.value.pieces;
      }
    } else {
      PacketTiles(w, mtu, messages, c);
      assert (accepted + [ok])[1..] == accepted[1..] + [ok];
      var p := SealNextPacket(w, mtu, messages, c).value;
      if accepted[0] {
        RunFlightSnoc(p.w, mtu, messages, p.cursor, accepted[1..], ok);
        var r := RunFlight(p.w, mtu, messages, p.cursor, accepted[1..]).value;
        PrefixedStep(p, r, mtu, messages, ok);
      } else {
        RunFlightSnoc(p.w, mtu, messages, c, accepted[1..], ok);
      }
    }
  }

  /** Prefixing a run by an accepted packet commutes with running one more iteration. */
  lemma PrefixedStep(p: Packet, r: FlightRun, mtu: nat, messages: seq<OutMessage>, ok: bool)
    requires WriteSideFits(r.w) && CursorOk(messages, r.cursor)
    ensures var r1 := FlightRun(r.w, r.cursor, [p.bytes] + r.packets, p.pieces + r.pieces);
            OneMore(r1, mtu, messages, ok) ==
              match OneMore(r, mtu, messages, ok)
              case None => None
              case Some(n) => Some(FlightRun(n.w, n.cursor, [p.bytes] + n.packets, p.pieces + n.pieces))
  {
    var q := SealNextPacket(r.w, mtu, messages, r.cursor);
    if q.Some? {
      assert ([p.bytes] + r.packets) + [q.value.bytes] == [p.bytes] + (r.packets + [q.value.bytes]);
      assert (p.pieces + r.pieces) + q.value.pieces == p.pieces + (r.pieces + q.value.pieces);
    }
  }

  // ---------- the state of a sender ----------

  datatype SenderState = SenderState(w: WriteSide, messages: seq<OutMessage>, cursor: Cursor, complete: bool, broken: bool)

  /** A flight that has been flushed is cleared before the next one starts. */
  function FreshFlight(s: SenderState): SenderState {
    if s.complete then s.(messages := [], cursor := Cursor(0, 0), complete := false) else s
  }

  /** add_outgoing; None when the flight is full or the message too long. */
  function AddToFlight(s: SenderState, data: seq<byte>, isCcs: bool): Option<SenderState> {
    var t := FreshFlight(s);
    if |t.messages| >= MAX_HANDSHAKE_FLIGHT || |data| > 0xffff_ffff then None
    else Some(t.(messages := t.messages + [OutMessage(data, t.w.epoch, isCcs)]))
  }
}
