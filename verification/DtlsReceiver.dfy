/** The receiving state of DTLS1_STATE as an object: every method is tied to the functions of
    DtlsReceive through the view of the ring. */
module DtlsReceiver {
  import opened Options
  import opened Words
  import opened DtlsWire
  import opened ReplayWindow
  import opened Reassembly
  import opened Aead
  import opened DtlsReceive

  /** to_u64_be. */
  method ToU64BE(bytes: seq<byte>) returns (ret: nat)
    requires |bytes| == 8
    ensures ret == BigEndian(bytes)
  {
    ret := 0;
    for i := 0 to 8
      invariant ret == BigEndian(bytes[..i])
    {
      assert bytes[..i + 1] == bytes[..i] + [bytes[i]];
      BigEndianStep(bytes[..i], bytes[i]);
      ret := 0x100 * ret + bytes[i] as nat;
    }
    assert bytes[..8] == bytes;
  }

  /** The record's number was not in the set and is the one number added to it. */
  ghost predicate NewlyRecorded(before: set<nat>, after: set<nat>, input: seq<byte>) {
    && ParseRecord(input).Some?
    && var number := ParseRecord(input).value.hdr.Number();
       number !in before && after == before + {number}
  }

  /** dtls_open_record. A record is accepted only if its number is new, and the window moves only
      for a record that authenticates. */
  method OpenOneRecord(epoch: nat, bitmap: Bitmap, aead: Context, closed: bool, onAlert: OpenStatus, input: seq<byte>)
    returns (status: OpenStatus, typ: byte, body: seq<byte>, consumed: nat)
    requires bitmap.Valid()
    modifies bitmap
    ensures bitmap.Valid()
    ensures Opened(status, typ, body, consumed, bitmap.View())
         == OpenRecord(epoch, old(bitmap.View()), aead, closed, onAlert, input)
    ensures if bitmap.recorded == old(bitmap.recorded) then bitmap.View() == old(bitmap.View())
            else NewlyRecorded(old(bitmap.recorded), bitmap.recorded, input)
    ensures status == Success ==> NewlyRecorded(old(bitmap.recorded), bitmap.recorded, input)
  {
    hide Context.Open, Record, ShouldDiscard, BigEndian;
    status, typ, body, consumed := Discard, 0, [], 0;
    if closed {
      return CloseNotify, 0, [], 0;
    }
    if input == [] {
      return Partial, 0, [], 0;
    }
    var parsed := ParseRecord(input);
    if parsed == None {
      return Discard, 0, [], |input|;
    }
    var r := parsed.value;
    var versionOk;
    if aead.isNullCipher {
      versionOk := r.hdr.version / 0x100 == DTLS1_VERSION_MAJOR;
    } else {
      versionOk := r.hdr.version == aead.recordVersion;
    }
    if |r.body| > RT_MAX_ENCRYPTED_LENGTH || !versionOk {
      return Discard, 0, [], |input|;
    }
    consumed := |input| - |r.rest|;
    var number := ToU64BE(input[3..11]);
    NumberOfRecord(input);
    if r.hdr.epoch != epoch {
      return;
    }
    var discard := bitmap.Discards(number);
    if discard {
      return;
    }
    var plain := aead.Open(r.hdr.typ, r.hdr.version, number, r.body);
    if plain == None {
      return;
    }
    if |plain.value| > RT_MAX_PLAIN_LENGTH {
      status := Error;
      return;
    }
    bitmap.Add(number);
    status, typ, body := if r.hdr.typ == RT_ALERT then onAlert else Success, r.hdr.typ, plain.value;
  }

  lemma NumberOfRecord(input: seq<byte>)
    requires ParseRecord(input).Some?
    ensures BigEndian(input[3..11]) == ParseRecord(input).value.hdr.Number()
  {
    assert input[3..11] == input[3..5] + input[5..11];
    NumberIsBigEndian(input[3..5], input[5..11]);
  }

  lemma SlotKeepsRing(r: Ring, idx: nat, p: PartialMessage)
    requires RingInv(r) && idx < MAX_HANDSHAKE_FLIGHT && SlotInv(r.readSeq, idx, p)
    ensures RingInv(r.(slots := r.slots[idx := Some(p)]))
  {
  }

  class Receiver {
    var epoch: nat
    var aead: Context
    const bitmap: Bitmap
    var handshakeReadSeq: nat
    const incoming: array<HmFragment?>
    var hasChangeCipherSpec: bool
    var hasMessage: bool
    ghost var Repr: set<object>

    ghost predicate Valid()
      reads this, Repr
    {
      && Separated()
      && bitmap.Valid()
      && epoch < 0x1_0000
      && RingInv(View())
    }

    /** The messages in the ring are valid objects with pairwise disjoint footprints. */
    ghost predicate Separated()
      reads this, Repr
    {
      && {this, bitmap, incoming} <= Repr
      && incoming.Length == MAX_HANDSHAKE_FLIGHT
      && (forall i :: 0 <= i < MAX_HANDSHAKE_FLIGHT && incoming[i] != null ==>
            incoming[i] in Repr && Owned(incoming[i]))
      && (forall i, j :: 0 <= i < j < MAX_HANDSHAKE_FLIGHT && incoming[i] != null && incoming[j] != null ==>
            incoming[i].Repr() !! incoming[j].Repr())
    }

    ghost predicate Owned(f: HmFragment)
      requires f in Repr
      reads this, Repr
    {
      && f.Repr() <= Repr
      && f.Repr() !! {this, bitmap, incoming}
      && f.Valid()
    }

    ghost function SlotView(i: nat): Slot
      requires i < MAX_HANDSHAKE_FLIGHT && Separated()
      reads this, Repr
    {
      if incoming[i] == null then None else Some(incoming[i].View())
    }

    ghost function View(): (r: Ring)
      requires Separated()
      reads this, Repr
    {
      Ring(handshakeReadSeq, seq(MAX_HANDSHAKE_FLIGHT, i requires 0 <= i < MAX_HANDSHAKE_FLIGHT && Separated() reads this, Repr => SlotView(i)))
    }

    constructor (aead: Context)
      ensures Valid() && fresh(Repr)
      ensures View() == EMPTY_RING && bitmap.View() == EMPTY_WINDOW && epoch == 0 && this.aead == aead
      ensures !hasChangeCipherSpec && !hasMessage
    {
      var b := new Bitmap();
      var slots := new HmFragment?[MAX_HANDSHAKE_FLIGHT](_ => null);
      epoch, handshakeReadSeq, hasChangeCipherSpec, hasMessage := 0, 0, false, false;
      this.aead := aead;
      bitmap, incoming := b, slots;
      Repr := {this, b, slots};
    }

    /** The ring is untouched by changes to the object's own flags and counters. */
    twostate lemma RingUntouched()
      requires old(Separated()) && Repr == old(Repr)
      requires forall o: object | o in old(Repr) && o != this && o != bitmap :: unchanged(o)
      ensures Separated()
      ensures View() == old(View()).(readSeq := handshakeReadSeq)
    {
      forall i: nat | i < MAX_HANDSHAKE_FLIGHT && incoming[i] != null
        ensures incoming[i] == old(incoming[i]) && Owned(incoming[i])
        ensures incoming[i].Repr() == old(incoming[i].Repr()) && incoming[i].View() == old(incoming[i].View())
      {
        assert unchanged(incoming);
        assert unchanged(incoming[i]);
      }
      assert View().slots == old(View()).slots;
    }

    /** Puts a new message into an empty slot. */
    method Insert(idx: nat, frag: HmFragment)
      requires Valid() && idx < MAX_HANDSHAKE_FLIGHT && incoming[idx] == null
      requires frag.Valid() && frag.Repr() !! Repr && SlotInv(handshakeReadSeq, idx, frag.View())
      modifies this`Repr, incoming
      ensures Valid() && Repr == old(Repr) + frag.Repr()
      ensures View() == old(View()).(slots := old(View()).slots[idx := Some(frag.View())])
      ensures incoming[idx] == frag
    {
      hide RingInv, SlotInv, HmFragment.View, HmFragment.Valid;
      SlotKeepsRing(View(), idx, frag.View());
      incoming[idx] := frag;
      Repr := Repr + frag.Repr();
      forall i: nat | i < MAX_HANDSHAKE_FLIGHT && i != idx
        ensures incoming[i] == old(incoming[i])
        ensures incoming[i] != null ==> incoming[i] in Repr && Owned(incoming[i]) && incoming[i].View() == old(incoming[i].View())
      {
      }
      assert Separated();
      assert View().slots == old(View()).slots[idx := Some(frag.View())];
      assert bitmap.Valid();
    }

    /** Empties a slot. */
    method Remove(idx: nat)
      requires Valid() && idx < MAX_HANDSHAKE_FLIGHT
      modifies incoming
      ensures Valid() && View() == old(View()).(slots := old(View()).slots[idx := None])
    {
      incoming[idx] := null;
      forall i: nat | i < MAX_HANDSHAKE_FLIGHT && i != idx
        ensures incoming[i] == old(incoming[i])
        ensures incoming[i] != null ==> incoming[i] in Repr && Owned(incoming[i]) && incoming[i].View() == old(incoming[i].View())
      {
      }
      assert Separated();
      assert View().slots == old(View()).slots[idx := None];
      assert bitmap.Valid();
    }

    /** dtls1_get_incoming_message: null on failure, else the slot's message, created if absent. */
    method GetIncoming(h: FragmentHeader) returns (frag: HmFragment?)
      requires Valid() && h.Fits()
      modifies this`Repr, incoming
      ensures Valid() && fresh(Repr - old(Repr)) && old(Repr) <= Repr
      ensures frag == null <==> Incoming(old(View()), h) == None
      ensures frag == null ==> View() == old(View())
      ensures frag != null ==>
                && frag == incoming[h.seqNum % MAX_HANDSHAKE_FLIGHT]
                && View() == old(View()).(slots := old(View()).slots[h.seqNum % MAX_HANDSHAKE_FLIGHT :=
                                                                       Incoming(old(View()), h)])
    {
      if h.seqNum < handshakeReadSeq || h.seqNum - handshakeReadSeq >= MAX_HANDSHAKE_FLIGHT {
        return null;
      }
      var idx := h.seqNum % MAX_HANDSHAKE_FLIGHT;
      frag := incoming[idx];
      assert View().slots[idx] == SlotView(idx);
      if frag != null {
        SlotHoldsItsNumber(View(), h.seqNum);
        assert frag.seqNum == h.seqNum;
        if frag.typ != h.typ || frag.msgLen != h.msgLen {
          return null;
        }
        assert View().slots[idx := Some(frag.View())] == View().slots;
        return;
      }
      frag := new HmFragment(h);
      Insert(idx, frag);
    }

    ghost function Side(): ReadSide
      requires Valid()
      reads this, Repr
    {
      ReadSide(epoch, bitmap.View(), View(), hasChangeCipherSpec, hasMessage)
    }

    /** Copies one fragment into the message of slot idx. */
    method Absorb(idx: nat, off: nat, body: seq<byte>)
      requires Valid() && idx < MAX_HANDSHAKE_FLIGHT && incoming[idx] != null
      requires incoming[idx].reassembly != null && off + |body| <= incoming[idx].msgLen
      modifies Repr - {this, bitmap, incoming}
      ensures Valid()
      ensures var p := old(incoming[idx].View());
              View() == old(View()).(slots := old(View()).slots[idx := Some(p.(got := p.got + Chunk(off, body)))])
    {
      var frag := incoming[idx];
      ghost var before := frag.View();
      frag.Receive(off, body);
      forall i: nat | i < MAX_HANDSHAKE_FLIGHT && i != idx && incoming[i] != null
        ensures incoming[i].Repr() == old(incoming[i].Repr()) && incoming[i].Valid()
        ensures incoming[i].View() == old(incoming[i].View())
      {
        assert incoming[i].Repr() !! old(frag.Repr());
      }
      assert Separated();
      assert View().slots == old(View()).slots[idx := Some(before.(got := before.got + Chunk(off, body)))];
    }

    /** A fragment of an already assembled message is ignored. */
    method Merge(idx: nat, off: nat, body: seq<byte>)
      requires Valid() && idx < MAX_HANDSHAKE_FLIGHT && incoming[idx] != null
      requires off + |body| <= incoming[idx].msgLen
      modifies Repr - {this, bitmap, incoming}
      ensures Valid()
      ensures var p := old(incoming[idx].View());
              View() == old(View()).(slots := old(View()).slots[idx :=
                Some(if p.Complete() then p else p.(got := p.got + Chunk(off, body)))])
    {
      incoming[idx].MaskIffPending();
      if incoming[idx].reassembly != null {
        Absorb(idx, off, body);
      } else {
        assert View().slots == View().slots[idx := SlotView(idx)];
      }
    }

    /** One iteration of the fragment loop of dtls1_open_handshake. */
    method OnFragment(f: Fragment, maxLen: nat) returns (ok: bool)
      requires Valid() && f.hdr.Fits() && |f.body| == f.hdr.fragLen
      modifies this`Repr, Repr - {this, bitmap}
      ensures Valid() && fresh(Repr - old(Repr)) && old(Repr) <= Repr
      ensures ok <==> ProcessFragment(old(View()), epoch, maxLen, f).Some?
      ensures View() == if ok then ProcessFragment(old(View()), epoch, maxLen, f).value else old(View())
    {
      var h := f.hdr;
      if h.fragOff > h.msgLen || h.fragOff + h.fragLen > h.msgLen || h.msgLen > maxLen {
        return false;
      }
      if epoch == 1 && h.seqNum != handshakeReadSeq {
        return false;
      }
      if h.seqNum < handshakeReadSeq || h.seqNum > handshakeReadSeq + MAX_HANDSHAKE_FLIGHT {
        return true;
      }
      var frag := GetIncoming(h);
      if frag == null {
        return false;
      }
      assert View().slots[h.seqNum % MAX_HANDSHAKE_FLIGHT] == SlotView(h.seqNum % MAX_HANDSHAKE_FLIGHT);
      Merge(h.seqNum % MAX_HANDSHAKE_FLIGHT, h.fragOff, f.body);
      return true;
    }

    /** Opens one record against this connection's epoch, window and context. */
    method OpenNext(closed: bool, onAlert: OpenStatus, input: seq<byte>)
      returns (status: OpenStatus, typ: byte, body: seq<byte>, consumed: nat)
      requires Valid()
      modifies bitmap
      ensures Valid() && View() == old(View())
      ensures Opened(status, typ, body, consumed, bitmap.View())
           == OpenRecord(epoch, old(bitmap.View()), aead, closed, onAlert, input)
    {
      status, typ, body, consumed := OpenOneRecord(epoch, bitmap, aead, closed, onAlert, input);
      RingUntouched();
    }

    /** The fragment loop over one handshake record. */
    method OnHandshakeRecord(record: seq<byte>, maxLen: nat) returns (ok: bool)
      requires Valid()
      modifies this`Repr, Repr - {this, bitmap}
      ensures Valid() && fresh(Repr - old(Repr)) && old(Repr) <= Repr
      ensures (View(), ok) == ProcessRecord(old(View()), epoch, maxLen, record)
    {
      var cbs := record;
      ok := true;
      while cbs != []
        invariant Valid() && fresh(Repr - old(Repr)) && old(Repr) <= Repr
        invariant ProcessRecord(View(), epoch, maxLen, cbs) == ProcessRecord(old(View()), epoch, maxLen, record)
        decreases |cbs|
      {
        var parsed := ParseFragment(cbs);
        if parsed == None {
          return false;
        }
        AssembledOfParse(cbs);
        var f := parsed.value;
        ok := OnFragment(f, maxLen);
        if !ok {
          return;
        }
        cbs := f.rest;
      }
    }

    /** The part of dtls1_open_handshake after the record is opened. */
    method Dispatch(typ: byte, record: seq<byte>, maxLen: nat) returns (status: OpenStatus)
      requires Valid()
      modifies this, Repr - {bitmap}
      ensures Valid() && fresh(Repr - old(Repr)) && aead == old(aead)
      ensures (Side(), status) == OnRecord(old(Side()), aead, maxLen, typ, record)
    {
      if typ == RT_APPLICATION_DATA {
        // Legal only under encryption, where it may arrive out of order.
        if aead.isNullCipher {
          return Error;
        }
        return Discard;
      } else if typ == RT_CHANGE_CIPHER_SPEC {
        if !aead.isNullCipher || |record| != 1 || record[0] != MT_CCS {
          return Error;
        }
        hasChangeCipherSpec := true;
        RingUntouched();
        return Success;
      } else if typ == RT_HANDSHAKE {
        var ok := OnHandshakeRecord(record, maxLen);
        return if ok then Success else Error;
      }
      return Error;
    }

    /** dtls1_open_handshake. */
    method OpenHandshakeRecord(closed: bool, onAlert: OpenStatus, maxLen: nat, input: seq<byte>)
      returns (status: OpenStatus, consumed: nat)
      requires Valid()
      modifies Repr
      ensures Valid() && fresh(Repr - old(Repr)) && aead == old(aead)
      ensures (Side(), status, consumed) == OpenHandshake(old(Side()), aead, maxLen, closed, onAlert, input)
    {
      var typ, record;
      status, typ, record, consumed := OpenNext(closed, onAlert, input);
      if status == Success {
        status := Dispatch(typ, record, maxLen);
      }
    }

    /** dtls1_get_message: the complete current message, header included. */
    method GetMessage() returns (ok: bool, raw: seq<byte>)
      requires Valid()
      modifies this`hasMessage
      ensures Valid() && View() == old(View())
      ensures ok <==> CurrentComplete(View())
      ensures ok ==> raw == Raw(View().slots[handshakeReadSeq % MAX_HANDSHAKE_FLIGHT].value)
      ensures hasMessage == (old(hasMessage) || ok)
    {
      raw := [];
      var idx := handshakeReadSeq % MAX_HANDSHAKE_FLIGHT;
      var frag := incoming[idx];
      assert View().slots[idx] == SlotView(idx);
      if frag == null {
        return false, raw;
      }
      frag.MaskIffPending();
      if frag.reassembly != null {
        return false, raw;
      }
      raw := frag.data[..];
      assert raw == Raw(frag.View());
      hasMessage := true;
      RingUntouched();
      return true, raw;
    }

    /** dtls1_next_message. */
    method NextMessage()
      requires Valid() && hasMessage && CurrentComplete(View())
      modifies this, incoming
      ensures Valid() && Repr == old(Repr) && epoch == old(epoch) && aead == old(aead)
      ensures View() == Advance(old(View()))
      ensures hasChangeCipherSpec == old(hasChangeCipherSpec) && !hasMessage
    {
      ghost var next := Advance(View());
      AdvanceKeepsRing(View());
      Remove(handshakeReadSeq % MAX_HANDSHAKE_FLIGHT);
      label L:
      handshakeReadSeq := (handshakeReadSeq + 1) % 0x1_0000;
      hasMessage := false;
      RingUntouched@L();
      assert View() == next;
    }

    /** dtls_has_unprocessed_handshake_data. */
    method HasUnprocessedData() returns (b: bool)
      requires Valid()
      ensures b == HasUnprocessed(Side())
    {
      if hasChangeCipherSpec {
        return true;
      }
      var current := handshakeReadSeq % MAX_HANDSHAKE_FLIGHT;
      for i := 0 to MAX_HANDSHAKE_FLIGHT
        invariant forall j :: 0 <= j < i && View().slots[j].Some? ==> hasMessage && j == current
      {
        assert View().slots[i] == SlotView(i);
        if !(hasMessage && i == current) && incoming[i] != null {
          return true;
        }
      }
      return false;
    }

    /** dtls1_set_read_state: refused while the current epoch has leftover data. */
    method SetReadState(newAead: Context) returns (ok: bool)
      requires Valid()
      modifies this, bitmap
      ensures Valid() && Repr == old(Repr)
      ensures ok <==> !HasUnprocessed(old(Side()))
      ensures !ok ==> Side() == old(Side()) && aead == old(aead)
      ensures ok ==> aead == newAead && Side() == old(Side()).(epoch := (old(epoch) + 1) % 0x1_0000, window := EMPTY_WINDOW)
    {
      var leftover := HasUnprocessedData();
      if leftover {
        return false;
      }
      epoch := (epoch + 1) % 0x1_0000;
      bitmap.Reset();
      aead := newAead;
      RingUntouched();
      return true;
    }

    /** dtls1_open_change_cipher_spec: consumes the flag left by an earlier record, or reads one. */
    method OpenChangeCipherSpec(closed: bool, onAlert: OpenStatus, maxLen: nat, input: seq<byte>)
      returns (status: OpenStatus, consumed: nat)
      requires Valid()
      modifies Repr
      ensures Valid() && fresh(Repr - old(Repr)) && aead == old(aead)
      ensures old(hasChangeCipherSpec) ==> status == Success && consumed == 0 && Side() == old(Side()).(hasChangeCipherSpec := false)
      ensures !old(hasChangeCipherSpec) ==>
                var (side', s, c) := OpenHandshake(old(Side()), aead, maxLen, closed, onAlert, input);
                && consumed == c
                && Side() == side'.(hasChangeCipherSpec := side'.hasChangeCipherSpec && s != Success)
                && status == if s != Success then s else if side'.hasChangeCipherSpec then Success else Discard
    {
      consumed := 0;
      if !hasChangeCipherSpec {
        status, consumed := OpenHandshakeRecord(closed, onAlert, maxLen, input);
        if status != Success {
          return;
        }
      }
      if hasChangeCipherSpec {
        label L:
        hasChangeCipherSpec := false;
        RingUntouched@L();
        return Success, consumed;
      }
      return Discard, consumed;
    }
  }
}
