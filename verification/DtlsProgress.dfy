/** The other half of delivery: a message is released as soon as its bytes have arrived, in
    whatever order, overlap and number of fragments, and not before. */
module DtlsProgress {
  import opened Options
  import opened Words
  import opened DtlsWire
  import opened Reassembly
  import opened DtlsReceive
  import opened DtlsSend

  /** The fragment loop of dtls1_open_handshake over fragments from any number of records. */
  ghost function ProcessAll(r: Ring, epoch: nat, maxLen: nat, frags: seq<Fragment>): (r': Option<Ring>)
    requires |r.slots| == MAX_HANDSHAKE_FLIGHT
    ensures r'.Some? ==> |r'.value.slots| == MAX_HANDSHAKE_FLIGHT
    decreases |frags|
  {
    if frags == [] then Some(r)
    else
      match ProcessFragment(r, epoch, maxLen, frags[0])
      case None => None
      case Some(r') => ProcessAll(r', epoch, maxLen, frags[1..])
  }

  predicate Carries(f: Fragment, n: nat, k: nat) {
    f.hdr.seqNum == n && f.hdr.fragOff <= k < f.hdr.fragOff + |f.body|
  }

  ghost predicate Arrived(frags: seq<Fragment>, n: nat) {
    exists i :: 0 <= i < |frags| && frags[i].hdr.seqNum == n
  }

  ghost predicate ByteArrived(frags: seq<Fragment>, n: nat, k: nat) {
    exists i :: 0 <= i < |frags| && Carries(frags[i], n, k)
  }

  /** Parsed fragments; those of message n agree that it is len bytes long. */
  ghost predicate Consistent(frags: seq<Fragment>, n: nat, len: nat) {
    forall i :: 0 <= i < |frags| ==>
      && frags[i].hdr.Fits() && |frags[i].body| == frags[i].hdr.fragLen
      && (frags[i].hdr.seqNum == n ==> frags[i].hdr.msgLen == len)
  }

  /** The ring's slot for message n, if n is in the window. */
  function SlotOf(r: Ring, n: nat): Slot
    requires |r.slots| == MAX_HANDSHAKE_FLIGHT
  {
    r.slots[n % MAX_HANDSHAKE_FLIGHT]
  }

  /** What is held for message n, if anything: len bytes long, with exactly these bytes present. */
  ghost predicate Holds(r: Ring, n: nat, len: nat, some: bool, has: iset<nat>)
    requires |r.slots| == MAX_HANDSHAKE_FLIGHT
  {
    && (SlotOf(r, n).Some? <==> some)
    && (some ==> SlotOf(r, n).value.msgLen == len && forall k: nat :: k in SlotOf(r, n).value.got <==> k in has)
  }

  /** One accepted fragment adds its own bytes to its own message and nothing else. */
  lemma FragmentAddsItsBytes(r: Ring, epoch: nat, maxLen: nat, f: Fragment, n: nat, len: nat, some: bool, has: iset<nat>)
    requires RingInv(r) && Consistent([f], n, len)
    requires ProcessFragment(r, epoch, maxLen, f).Some?
    requires r.readSeq <= n < r.readSeq + MAX_HANDSHAKE_FLIGHT && Holds(r, n, len, some, has) && (!some ==> has == iset{})
    ensures var r' := ProcessFragment(r, epoch, maxLen, f).value;
            && RingInv(r') && r'.readSeq == r.readSeq
            && Holds(r', n, len, some || f.hdr.seqNum == n, has + iset k: nat | Carries(f, n, k))
  {
    assert [f][0] == f;
    ProcessFragmentKeepsRing(r, epoch, maxLen, f);
    var h := f.hdr;
    if r.readSeq <= h.seqNum < r.readSeq + MAX_HANDSHAKE_FLIGHT {
      if h.seqNum % MAX_HANDSHAKE_FLIGHT == n % MAX_HANDSHAKE_FLIGHT {
        SevenConsecutive(r.readSeq, n, h.seqNum);
      }
    }
  }

  /** After any accepted fragments, the bytes held for message n are exactly those that arrived. */
  lemma {:induction false} HeldIsArrived(r: Ring, epoch: nat, maxLen: nat, frags: seq<Fragment>, n: nat, len: nat, some: bool, has: iset<nat>)
    requires RingInv(r) && Consistent(frags, n, len) && ProcessAll(r, epoch, maxLen, frags).Some?
    requires r.readSeq <= n < r.readSeq + MAX_HANDSHAKE_FLIGHT && Holds(r, n, len, some, has) && (!some ==> has == iset{})
    ensures var r' := ProcessAll(r, epoch, maxLen, frags).value;
            && RingInv(r') && r'.readSeq == r.readSeq
            && Holds(r', n, len, some || Arrived(frags, n), has + iset k: nat | ByteArrived(frags, n, k))
    decreases |frags|
  {
    if frags != [] {
      var f, rest := frags[0], frags[1..];
      assert frags == [f] + rest;
      FragmentAddsItsBytes(r, epoch, maxLen, f, n, len, some, has);
      var r1 := ProcessFragment(r, epoch, maxLen, f).value;
      hide ProcessFragment, RingInv, Holds;
      var has1 := has + iset k: nat | Carries(f, n, k);
      HeldIsArrived(r1, epoch, maxLen, rest, n, len, some || f.hdr.seqNum == n, has1);
      ArrivedCons(f, rest, n);
      assert has1 + (iset k: nat | ByteArrived(rest, n, k)) == has + iset k: nat | ByteArrived(frags, n, k);
    } else {
      assert has + (iset k: nat | ByteArrived(frags, n, k)) == has;
    }
  }

  lemma ArrivedCons(f: Fragment, rest: seq<Fragment>, n: nat)
    ensures Arrived([f] + rest, n) <==> f.hdr.seqNum == n || Arrived(rest, n)
    ensures forall k: nat :: ByteArrived([f] + rest, n, k) <==> Carries(f, n, k) || ByteArrived(rest, n, k)
  {
    var all := [f] + rest;
    assert all[0] == f && forall i :: 0 <= i < |rest| ==> all[i + 1] == rest[i];
    if Arrived(rest, n) {
      var i :| 0 <= i < |rest| && rest[i].hdr.seqNum == n;
      assert all[i + 1].hdr.seqNum == n;
    }
    forall k: nat
      ensures ByteArrived(all, n, k) <==> Carries(f, n, k) || ByteArrived(rest, n, k)
    {
      if ByteArrived(rest, n, k) {
        var i :| 0 <= i < |rest| && Carries(rest[i], n, k);
        assert Carries(all[i + 1], n, k);
      }
      if ByteArrived(all, n, k) {
        var i :| 0 <= i < |all| && Carries(all[i], n, k);
        assert i == 0 || Carries(rest[i - 1], n, k);
      }
    }
  }

  /** From an empty slot, the current message is complete if and only if some fragment of it and
      every one of its bytes has arrived. */
  lemma CompleteExactlyWhenArrived(r: Ring, epoch: nat, maxLen: nat, frags: seq<Fragment>, len: nat)
    requires RingInv(r) && SlotOf(r, r.readSeq) == None
    requires Consistent(frags, r.readSeq, len) && ProcessAll(r, epoch, maxLen, frags).Some?
    ensures CurrentComplete(ProcessAll(r, epoch, maxLen, frags).value) <==>
              Arrived(frags, r.readSeq) && forall k: nat :: k < len ==> ByteArrived(frags, r.readSeq, k)
  {
    var n := r.readSeq;
    HeldIsArrived(r, epoch, maxLen, frags, n, len, false, iset{});
    var r' := ProcessAll(r, epoch, maxLen, frags).value;
    assert CurrentComplete(r') <==> SlotOf(r', n).Some? && SlotOf(r', n).value.Complete();
    if Arrived(frags, n) {
      var p := SlotOf(r', n).value;
      assert p.msgLen == len;
      assert forall k: nat :: k in p.got <==> ByteArrived(frags, n, k);
    }
  }

  /** Pieces that lead from c to d cover every byte in between. */
  lemma {:induction false} FollowCovers(messages: seq<OutMessage>, c: Cursor, pieces: seq<Piece>, m: nat, k: nat)
    requires CursorOk(messages, c) && Follow(messages, c, pieces).Some? && m < |messages|
    requires Reached(messages, c, m) <= k < Reached(messages, Follow(messages, c, pieces).value, m)
    ensures exists i :: 0 <= i < |pieces| && pieces[i].msg == m && pieces[i].off <= k < pieces[i].off + pieces[i].len
    decreases |pieces|
  {
    var p := pieces[0];
    if !(p.msg == m && p.off <= k < p.off + p.len) {
      var next := if p.off + p.len == BodyLen(messages[p.msg]) then Cursor(c.written + 1, 0)
                  else Cursor(c.written, p.off + p.len);
      FollowCovers(messages, next, pieces[1..], m, k);
      var j :| 0 <= j < |pieces[1..]| && pieces[1..][j].msg == m
               && pieces[1..][j].off <= k < pieces[1..][j].off + pieces[1..][j].len;
      assert pieces[j + 1] == pieces[1..][j];
    }
  }

  /** Once the bytes of every piece of a fully written flight have been accepted, in any order and
      among any others, the message the receiver waits for is complete. */
  lemma {:induction false} FlightCompletesMessage(messages: seq<OutMessage>, pieces: seq<Piece>, m: nat,
                               r: Ring, epoch: nat, maxLen: nat, frags: seq<Fragment>)
    requires CursorOk(messages, Cursor(0, 0)) && m < |messages|
    requires Follow(messages, Cursor(0, 0), pieces) == Some(Cursor(|messages|, 0))
    requires RingInv(r) && SlotOf(r, r.readSeq) == None
    requires Consistent(frags, r.readSeq, BodyLen(messages[m])) && ProcessAll(r, epoch, maxLen, frags).Some?
    requires Arrived(frags, r.readSeq)
    requires forall i, k: nat :: 0 <= i < |pieces| && pieces[i].msg == m && pieces[i].off <= k < pieces[i].off + pieces[i].len ==>
               ByteArrived(frags, r.readSeq, k)
    ensures CurrentComplete(ProcessAll(r, epoch, maxLen, frags).value)
  {
    CompleteExactlyWhenArrived(r, epoch, maxLen, frags, BodyLen(messages[m]));
    forall k: nat | k < BodyLen(messages[m])
      ensures ByteArrived(frags, r.readSeq, k)
    {
      FollowCovers(messages, Cursor(0, 0), pieces, m, k);
    }
  }
}
