/** The sending state of DTLS1_STATE as an object: the outgoing flight, the cursor into it, and the
    write sequence numbers, changed step by step and tied to the functions of DtlsSend. */
module DtlsSender {
  import opened Options
  import opened Words
  import opened DtlsWire
  import opened Reassembly
  import opened Aead
  import opened DtlsReceive
  import opened DtlsSend

  const DEFAULT_MTU := 1500 - 28
  const MIN_MTU := 256 - 28

  datatype SealStatus = Failed | Stalled | Partly | Wholly

  /** memcpy. */
  method CopyInto(out: array<byte>, base: nat, bytes: seq<byte>)
    requires base + |bytes| <= out.Length
    modifies out
    ensures out[..base + |bytes|] == old(out[..base]) + bytes
  {
    forall i | 0 <= i < |bytes| {
      out[base + i] := bytes[i];
    }
    assert out[..base] == old(out[..base]) && out[base..base + |bytes|] == bytes;
  }

  class Sender {
    var epoch: nat
    var aead: Context
    var writeSequence: nat
    var lastAead: Context
    var lastWriteSequence: nat

    const outgoing: array<OutMessage>
    var outgoingLen: nat
    var outgoingWritten: nat
    var outgoingOffset: nat
    var outgoingComplete: bool
    var handshakeWriteSeq: nat
    var mtu: nat
    /** A close_notify or a fatal alert has been sent. */
    var writeShutdown: bool

    /** Set by a sealing error, after which the connection is of no use. */
    ghost var broken: bool
    /** The pieces in the packets accepted by the BIO since the last rewind. */
    ghost var wire: seq<Piece>

    ghost predicate Valid()
      reads this, outgoing
    {
      && Shape()
      && (!broken ==> CursorOk(Messages(), Position()) && Follow(Messages(), Cursor(0, 0), wire) == Some(Position()))
    }

    /** What holds also in the middle of a packet. */
    ghost predicate Shape()
      reads this, outgoing
    {
      && outgoing.Length == MAX_HANDSHAKE_FLIGHT
      && outgoingLen <= MAX_HANDSHAKE_FLIGHT
      && handshakeWriteSeq < 0x1_0000
      && WriteSideFits(Keys())
      && (forall i :: 0 <= i < outgoingLen ==> WellFormed(outgoing[i]))
    }

    ghost function Keys(): WriteSide
      reads this
    {
      WriteSide(epoch, aead, writeSequence, lastAead, lastWriteSequence)
    }

    ghost function Messages(): seq<OutMessage>
      requires outgoingLen <= outgoing.Length
      reads this, outgoing
    {
      outgoing[..outgoingLen]
    }

    ghost function Position(): Cursor
      reads this
    {
      Cursor(outgoingWritten, outgoingOffset)
    }

    ghost function State(): SenderState
      requires outgoingLen <= outgoing.Length
      reads this, outgoing
    {
      SenderState(Keys(), Messages(), Position(), outgoingComplete, broken)
    }

    constructor (nullAead: Context)
      requires nullAead.recordVersion < 0x1_0000
      ensures Valid() && !broken && fresh(outgoing)
      ensures State() == SenderState(WriteSide(0, nullAead, 0, nullAead, 0), [], Cursor(0, 0), false, false)
      ensures wire == [] && handshakeWriteSeq == 0 && !writeShutdown
    {
      epoch, aead, writeSequence, lastAead, lastWriteSequence := 0, nullAead, 0, nullAead, 0;
      outgoing := new OutMessage[MAX_HANDSHAKE_FLIGHT](_ => OutMessage([], 0, false));
      outgoingLen, outgoingWritten, outgoingOffset, outgoingComplete := 0, 0, 0, false;
      handshakeWriteSeq, mtu, writeShutdown := 0, 0, false;
      broken, wire := false, [];
    }

    /** dtls1_set_write_state. */
    method SetWriteState(newAead: Context)
      requires Valid() && newAead.recordVersion < 0x1_0000
      modifies this`epoch, this`aead, this`writeSequence, this`lastAead, this`lastWriteSequence
      ensures Valid() && Keys() == DtlsSend.SetWriteState(old(Keys()), newAead)
    {
      epoch := (epoch + 1) % 0x1_0000;
      lastWriteSequence := writeSequence;
      writeSequence := 0;
      lastAead := aead;
      aead := newAead;
    }

    /** dtls_clear_outgoing_messages. */
    method ClearOutgoing()
      requires Valid()
      modifies this`outgoingLen, this`outgoingWritten, this`outgoingOffset, this`outgoingComplete, this`wire
      ensures Valid() && Messages() == [] && Position() == Cursor(0, 0) && !outgoingComplete && wire == []
    {
      outgoingLen, outgoingWritten, outgoingOffset := 0, 0, 0;
      outgoingComplete := false;
      wire := [];
    }

    /** add_outgoing: starts a new flight if the last one was flushed, refuses an eighth message. */
    method AddOutgoing(isCcs: bool, data: seq<byte>) returns (ok: bool)
      requires Valid() && !broken && (isCcs || IsWhole(data))
      modifies this`outgoingLen, this`outgoingWritten, this`outgoingOffset, this`outgoingComplete, this`wire,
               this`handshakeWriteSeq, outgoing
      ensures Valid() && !outgoingComplete
      ensures ok <==> AddToFlight(old(State()), data, isCcs).Some?
      ensures State() == if ok then AddToFlight(old(State()), data, isCcs).value else FreshFlight(old(State()))
      ensures handshakeWriteSeq == if ok && !isCcs then (old(handshakeWriteSeq) + 1) % 0x1_0000 else old(handshakeWriteSeq)
    {
      hide IsWhole, ParseFragment;
      if outgoingComplete {
        ClearOutgoing();
      }
      if outgoingLen >= MAX_HANDSHAKE_FLIGHT || |data| > 0xffff_ffff {
        return false;
      }
      if !isCcs {
        handshakeWriteSeq := (handshakeWriteSeq + 1) % 0x1_0000;
      }
      ghost var before := Messages();
      outgoing[outgoingLen] := OutMessage(data, epoch, isCcs);
      outgoingLen := outgoingLen + 1;
      assert Messages() == before + [OutMessage(data, epoch, isCcs)];
      FollowMonotone(before, OutMessage(data, epoch, isCcs), Cursor(0, 0), wire);
      return true;
    }

    /** dtls_seal_record into out[base..base + maxOut). */
    method SealInto(out: array<byte>, base: nat, maxOut: nat, typ: byte, plain: seq<byte>, previous: bool)
      returns (ok: bool, len: nat)
      requires Shape() && (previous ==> epoch >= 1) && base + maxOut <= out.Length
      requires outgoing as object != out
      modifies this`writeSequence, this`lastWriteSequence, out
      ensures WriteSideFits(Keys())
      ensures var s := SealRecord(old(Keys()), maxOut, typ, plain, previous);
              && (ok <==> s.Some?)
              && (ok ==> Keys() == s.value.w && len == |s.value.record| && len <= maxOut
                         && out[..base + len] == old(out[..base]) + s.value.record)
    {
      hide RecordBytes, Follow, CursorOk, Context.Seal;
      len := 0;
      ok := false;
      if maxOut < RT_HEADER_LENGTH {
        return;
      }
      var sealEpoch, ctx, number := epoch, aead, writeSequence;
      if previous {
        sealEpoch, ctx, number := epoch - 1, lastAead, lastWriteSequence;
      }
      var hdr := RecordHeader(typ, aead.recordVersion, sealEpoch, number);
      var cipher := ctx.Seal(maxOut - RT_HEADER_LENGTH, typ, hdr.version, hdr.Number(), plain);
      if cipher == None {
        return;
      }
      // ssl_record_sequence_update fails when the 48-bit number wraps.
      var next := if number == 0xffff_ffff_ffff then 0 else number + 1;
      if previous {
        lastWriteSequence := next;
      } else {
        writeSequence := next;
      }
      if next == 0 || |cipher.value| >= 0x1_0000 {
        return;
      }
      var record := RecordBytes(hdr, cipher.value);
      CopyInto(out, base, record);
      ok, len := true, |record|;
    }

    /** seal_next_message for the message under the cursor. */
    method SealMessageInto(out: array<byte>, base: nat, maxOut: nat) returns (status: SealStatus, len: nat)
      requires Shape() && outgoingWritten < outgoingLen && base + maxOut <= out.Length
      requires outgoing[outgoingWritten].isCcs ==> outgoingOffset == 0
      requires outgoing as object != out
      modifies this`writeSequence, this`lastWriteSequence, this`outgoingOffset, out
      ensures WriteSideFits(Keys()) && len <= maxOut
      ensures var r := SealNextMessage(old(Keys()), maxOut, outgoing[outgoingWritten], old(outgoingOffset));
              match r
              case SealError => status == Failed
              case NoProgress =>
                && status == Stalled && Keys() == old(Keys()) && outgoingOffset == old(outgoingOffset)
                && out[..base] == old(out[..base])
              case PartialSeal(w, offset, record, _) =>
                && status == Partly && Keys() == w && outgoingOffset == offset
                && len == |record| && out[..base + len] == old(out[..base]) + record
              case SealSuccess(w, record, _) =>
                && status == Wholly && Keys() == w && outgoingOffset == 0
                && len == |record| && out[..base + len] == old(out[..base]) + record
    {
      hide SealRecord, Follow, CursorOk, FragmentBytes, RecordBytes, ParseFragment, IsWhole;
      len := 0;
      var msg := outgoing[outgoingWritten];
      var previous := epoch >= 1 && msg.epoch == epoch - 1;
      if !previous && msg.epoch != epoch {
        return Failed, 0;
      }
      var ctx := if previous then lastAead else aead;
      var overhead := RT_HEADER_LENGTH + ctx.MaxOverhead();
      var prefix := RT_HEADER_LENGTH + ctx.ExplicitNonceLen();
      var ok;
      if msg.isCcs {
        if maxOut < 1 + overhead {
          return Stalled, 0;
        }
        ok, len := SealInto(out, base, maxOut, RT_CHANGE_CIPHER_SPEC, [MT_CCS], previous);
        if !ok {
          return Failed, 0;
        }
        return Wholly, len;
      }
      WholeFacts(msg.data);
      var f := ParseFragment(msg.data).value;
      if outgoingOffset > |f.body| {
        return Failed, 0;
      }
      if maxOut < HM_HEADER_LENGTH + 1 + overhead || maxOut < prefix {
        return Stalled, 0;
      }
      var left := |f.body| - outgoingOffset;
      var todo := left;
      if todo > maxOut - HM_HEADER_LENGTH - overhead {
        todo := maxOut - HM_HEADER_LENGTH - overhead;
      }
      ok, len := SealInto(out, base, maxOut, RT_HANDSHAKE, FragmentBytes(f, outgoingOffset, todo), previous);
      if !ok {
        return Failed, 0;
      }
      if todo == left {
        outgoingOffset := 0;
        return Wholly, len;
      }
      outgoingOffset := outgoingOffset + todo;
      return Partly, len;
    }

    /** One iteration of seal_next_packet: `full` says that the packet takes no further message. */
    method PackOne(out: array<byte>, base: nat, maxOut: nat)
      returns (ok: bool, full: bool, len: nat, ghost pieces: seq<Piece>)
      requires Shape() && outgoingWritten < outgoingLen && base + maxOut <= out.Length
      requires outgoing as object != out
      requires outgoing[outgoingWritten].isCcs ==> outgoingOffset == 0
      modifies this`writeSequence, this`lastWriteSequence, this`outgoingWritten, this`outgoingOffset, out
      ensures Shape() && len <= maxOut && outgoingWritten <= outgoingLen
      ensures var p := PackMessages(old(Keys()), maxOut, Messages(), old(Position()));
              && (ok <==> p != None || !full)
              && (ok ==> p == Prepend(out[base..base + len], pieces, Onward(full, maxOut - len)))
      ensures ok ==> out[..base] == old(out[..base])
      ensures ok && !full ==> outgoingWritten == old(outgoingWritten) + 1 && outgoingOffset == 0
      ensures ok ==> (len > 0 <==> pieces != [])
    {
      hide SealNextMessage, PackMessages, WellFormed;
      ghost var r := SealNextMessage(Keys(), maxOut, outgoing[outgoingWritten], outgoingOffset);
      PackStep(Keys(), maxOut, Messages(), Position());
      ghost var before := Position();
      var status;
      status, len := SealMessageInto(out, base, maxOut);
      if status == Failed {
        return false, true, 0, [];
      }
      pieces := if status == Stalled then [] else [Piece(before.written, before.offset, r.len)];
      if status == Stalled {
        assert out[base..base] == [];
        PrependNothing([], [], Keys(), Position(), None);
        return true, true, 0, [];
      }
      assert out[base..base + len] == r.record;
      if status == Partly {
        PrependNothing(r.record, pieces, Keys(), Position(), None);
        return true, true, len, pieces;
      }
      outgoingWritten := outgoingWritten + 1;
      return true, false, len, pieces;
    }

    /** What is still to be packed: nothing once the packet is full. */
    ghost function Onward(full: bool, room: nat): Option<Packet>
      requires Shape() && outgoingWritten <= outgoingLen
      reads this, outgoing
    {
      if full then Some(Packet(Keys(), Position(), [], [])) else PackMessages(Keys(), room, Messages(), Position())
    }

    /** seal_next_packet into out[..maxOut). */
    method SealPacketInto(out: array<byte>, maxOut: nat) returns (ok: bool, total: nat, ghost pieces: seq<Piece>)
      requires Valid() && !broken && outgoingWritten < outgoingLen && maxOut <= out.Length
      requires outgoing as object != out
      modifies this`writeSequence, this`lastWriteSequence, this`outgoingWritten, this`outgoingOffset, out
      ensures Shape()
      ensures var p := SealNextPacket(old(Keys()), maxOut, Messages(), old(Position()));
              && (ok <==> p.Some?)
              && (ok ==> total <= maxOut && p.value == Packet(Keys(), Position(), out[..total], pieces))
    {
      hide PackMessages, WellFormed, CursorOk, Follow;
      CcsHasNoOffset(Messages(), Position());
      ghost var start := PackMessages(Keys(), maxOut, Messages(), Position());
      var full, room, made := false, maxOut, false;
      total, pieces, ok := 0, [], true;
      assert out[..0] == [];
      PrependNothing([], [], Keys(), Position(), start);
      while !full && outgoingWritten < outgoingLen
        invariant Shape() && outgoingWritten <= outgoingLen && Messages() == old(Messages())
        invariant !full && outgoingWritten < outgoingLen && outgoing[outgoingWritten].isCcs ==> outgoingOffset == 0
        invariant total + room == maxOut && (made <==> pieces != [])
        invariant start == Prepend(out[..total], pieces, Onward(full, room))
        decreases !full, outgoingLen - outgoingWritten
      {
        ghost var sofar := out[..total];
        var len;
        ghost var more;
        ok, full, len, more := PackOne(out, total, room);
        if !ok {
          return false, 0, [];
        }
        PrependTwice(sofar, pieces, out[total..total + len], more, Onward(full, room - len));
        assert sofar + out[total..total + len] == out[..total + len];
        total, room, made := total + len, room - len, made || len > 0;
        pieces := pieces + more;
      }
      if !full {
        PackStep(Keys(), room, Messages(), Position());
      }
      PrependNothing(out[..total], pieces, Keys(), Position(), None);
      // The MTU was too small to make any progress.
      ok := made;
    }

    /** What a pass of send_flight did: the run of the flight under these answers, from where the
        cursor stood, with every packet within the MTU. */
    twostate predicate Flown(ret: int, accepted: seq<bool>, packets: seq<seq<byte>>)
      requires old(Valid()) && Valid() && !old(broken) && Messages() == old(Messages())
      reads this, outgoing
    {
      && (forall i :: 0 <= i < |packets| ==> |packets[i]| <= mtu)
      && (broken || writeShutdown ==> ret == -1)
      && (!broken ==>
            var r := RunFlight(old(Keys()), mtu, Messages(), old(Position()), accepted);
            && r.Some? && r.value.w == Keys() && r.value.cursor == Position()
            && r.value.packets == packets && wire == old(wire) + r.value.pieces)
      && (ret > 0 ==> !broken && Position() == Cursor(|Messages()|, 0))
    }

    /** send_flight. The answers of BIO_write, BIO_flush and of the MTU query are arbitrary; `accepted`
        records which packets were taken. The packets taken since the last rewind tile the flight up
        to the cursor, and the whole of it on success. */
    method SendFlight() returns (ret: int, ghost accepted: seq<bool>, ghost packets: seq<seq<byte>>)
      requires Valid() && !broken
      modifies this`writeSequence, this`lastWriteSequence, this`outgoingWritten, this`outgoingOffset,
               this`broken, this`wire, this`mtu
      ensures Valid()
      ensures Flown(ret, accepted, packets)
    {
      hide RunFlight, SealNextPacket, PackMessages, Follow, CursorOk, WellFormed;
      accepted, packets := [], [];
      ret := -1;
      if !writeShutdown {
        var noQuery: bool, queried: int := *, *;
        UpdateMtu(noQuery, queried);
      }
      NoIterations(Keys(), mtu, Messages(), Position());
      ghost var messages := Messages();
      ghost var run := FlightRun(Keys(), Position(), [], []);
      if writeShutdown {
        return;
      }
      var packet := new byte[mtu];
      while outgoingWritten < outgoingLen
        invariant Valid() && !broken && Messages() == messages && packet.Length == mtu
        invariant RunFlight(old(Keys()), mtu, messages, old(Position()), accepted) == Some(run)
        invariant run.w == Keys() && run.cursor == Position() && run.packets == packets && wire == old(wire) + run.pieces
        invariant forall i :: 0 <= i < |packets| ==> |packets[i]| <= mtu
        decreases outgoingLen - outgoingWritten, Left()
      {
        var ok, bioRet;
        ghost var bytes;
        ghost var before := Position();
        ghost var w := Keys();
        ok, bioRet, bytes := SendOnePacket(packet);
        if !ok {
          return;
        }
        RunFlightSnoc(old(Keys()), mtu, messages, old(Position()), accepted, bioRet > 0);
        accepted := accepted + [bioRet > 0];
        run := RunFlight(old(Keys()), mtu, messages, old(Position()), accepted).value;
        if bioRet <= 0 {
          ret := bioRet;
          return;
        }
        packets := packets + [bytes];
      }
      CursorAtEnd(messages, Position());
      var flushed: int := *;
      if flushed > 0 {
        ret := 1;
      }
    }

    /** One iteration of send_flight: seal a packet, offer it to the BIO, and take the cursor back if
        it is refused. */
    method SendOnePacket(packet: array<byte>) returns (ok: bool, bioRet: int, ghost bytes: seq<byte>)
      requires Valid() && !broken && outgoingWritten < outgoingLen && packet.Length == mtu
      requires outgoing as object != packet
      modifies this`writeSequence, this`lastWriteSequence, this`outgoingWritten, this`outgoingOffset,
               this`broken, this`wire, packet
      ensures Valid() && broken == !ok
      ensures var p := SealNextPacket(old(Keys()), mtu, Messages(), old(Position()));
              && (ok <==> p.Some?)
              && (ok ==> Keys() == p.value.w && bytes == p.value.bytes && |bytes| <= mtu)
              && (ok && bioRet > 0 ==>
                    Position() == p.value.cursor && wire == old(wire) + p.value.pieces
                    && Closer(Messages(), old(Position()), Position()))
              && (ok && bioRet <= 0 ==> Position() == old(Position()) && wire == old(wire))
    {
      hide PackMessages, Follow;
      ghost var messages, w, before := Messages(), Keys(), Position();
      var oldWritten, oldOffset := outgoingWritten, outgoingOffset;
      var len;
      ghost var pieces;
      ok, len, pieces := SealPacketInto(packet, mtu);
      bioRet, bytes := 0, [];
      if !ok {
        broken := true;
        return;
      }
      bytes := packet[..len];
      PacketTiles(w, mtu, messages, before);
      bioRet := *;
      if bioRet <= 0 {
        outgoingWritten, outgoingOffset := oldWritten, oldOffset;
        return;
      }
      FollowAppend(messages, Cursor(0, 0), wire, pieces);
      wire := wire + pieces;
    }

    /** Bytes of the message under the cursor still to be cut. */
    ghost function Left(): nat
      requires Valid() && !broken
      reads this, outgoing
    {
      if outgoingWritten < outgoingLen then BodyLen(outgoing[outgoingWritten]) - outgoingOffset else 0
    }

    /** dtls1_flush_flight. */
    method FlushFlight() returns (ret: int, ghost accepted: seq<bool>, ghost packets: seq<seq<byte>>)
      requires Valid() && !broken
      modifies this`writeSequence, this`lastWriteSequence, this`outgoingWritten, this`outgoingOffset,
               this`broken, this`wire, this`mtu, this`outgoingComplete
      ensures Valid() && outgoingComplete
      ensures Flown(ret, accepted, packets)
    {
      outgoingComplete := true;
      ret, accepted, packets := SendFlight();
    }

    /** dtls1_retransmit_outgoing_messages: rewinds and writes the flight again from its start. On
        success the packets written carry every message of the flight completely. */
    method Retransmit() returns (ret: int, ghost accepted: seq<bool>, ghost packets: seq<seq<byte>>)
      requires Valid() && !broken
      modifies this`writeSequence, this`lastWriteSequence, this`outgoingWritten, this`outgoingOffset,
               this`broken, this`wire, this`mtu
      ensures Valid()
      ensures !broken ==>
                var r := RunFlight(old(Keys()), mtu, Messages(), Cursor(0, 0), accepted);
                && r.Some? && r.value.w == Keys() && r.value.cursor == Position()
                && r.value.packets == packets && wire == r.value.pieces
      ensures ret > 0 ==> !broken && Position() == Cursor(|Messages()|, 0)
      ensures ret > 0 ==> forall m, body ::
                0 <= m < outgoingLen && |body| == BodyLen(outgoing[m]) ==> Carried(body, m, wire) == body
    {
      hide RunFlight, SealNextPacket, PackMessages, Follow, Carried, WellFormed, BodyLen;
      Rewound(Messages());
      outgoingWritten, outgoingOffset := 0, 0;
      wire := [];
      ret, accepted, packets := SendFlight();
      if ret > 0 {
        forall m, body | 0 <= m < outgoingLen && |body| == BodyLen(outgoing[m])
          ensures Carried(body, m, wire) == body
        {
          FollowTiles(Messages(), Cursor(0, 0), wire, m, body);
        }
      }
    }

    /** dtls1_update_mtu: `queried` is the BIO's answer. */
    method UpdateMtu(noQuery: bool, queried: int)
      modifies this`mtu
      ensures !noQuery ==> mtu >= MIN_MTU
      ensures old(mtu) >= MIN_MTU || noQuery ==> mtu == old(mtu)
      ensures old(mtu) < MIN_MTU && !noQuery ==> mtu == if MIN_MTU <= queried <= 0x4000_0000 then queried else DEFAULT_MTU
    {
      if mtu < MIN_MTU && !noQuery {
        if 0 <= queried <= 0x4000_0000 && queried >= MIN_MTU {
          mtu := queried;
        } else {
          mtu := DEFAULT_MTU;
        }
      }
    }
  }

  lemma Rewound(messages: seq<OutMessage>)
    requires forall m :: m in messages ==> WellFormed(m)
    ensures CursorOk(messages, Cursor(0, 0)) && Follow(messages, Cursor(0, 0), []) == Some(Cursor(0, 0))
  {
  }

  lemma CursorAtEnd(messages: seq<OutMessage>, c: Cursor)
    requires CursorOk(messages, c) && c.written >= |messages|
    ensures c == Cursor(|messages|, 0)
  {
  }

  lemma NoIterations(w: WriteSide, mtu: nat, messages: seq<OutMessage>, c: Cursor)
    requires WriteSideFits(w) && CursorOk(messages, c)
    ensures RunFlight(w, mtu, messages, c, []) == Some(FlightRun(w, c, [], []))
  {
  }

  lemma CcsHasNoOffset(messages: seq<OutMessage>, c: Cursor)
    requires CursorOk(messages, c) && c.written < |messages|
    ensures messages[c.written].isCcs ==> c.offset == 0
  {
  }

  /** A flight with one more message at its end is read no differently. */
  lemma {:induction false} FollowMonotone(messages: seq<OutMessage>, m: OutMessage, c: Cursor, pieces: seq<Piece>)
    requires (forall x :: x in messages ==> WellFormed(x)) && WellFormed(m)
    requires Follow(messages, c, pieces).Some?
    ensures Follow(messages + [m], c, pieces) == Follow(messages, c, pieces)
    decreases |pieces|
  {
    if pieces != [] {
      var p := pieces[0];
      assert (messages + [m])[p.msg] == messages[p.msg];
      var next := if p.off + p.len == BodyLen(messages[p.msg]) then Cursor(c.written + 1, 0)
                  else Cursor(c.written, p.off + p.len);
      FollowMonotone(messages, m, next, pieces[1..]);
    }
  }
}
