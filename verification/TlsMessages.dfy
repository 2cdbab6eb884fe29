/** Handshake messages over TLS records (s3_both.cc): messages are cut into records regardless of where
    they end, and taken out of a buffer that records are appended to. */
module TlsMessages {
  import opened Words
  import opened DtlsWire

  const HEADER := 4

  /** A handshake message: type, 24-bit length, body. */
  function MessageBytes(typ: byte, body: seq<byte>): seq<byte>
    requires |body| < 0x100_0000
  {
    [typ] + U24(|body|) + body
  }

  /** The length parse_message finds it needs, from the header once that is there. */
  function Needed(buf: seq<byte>): nat {
    if |buf| < HEADER then HEADER else HEADER + GetU24(buf[1..HEADER])
  }

  predicate Complete(buf: seq<byte>) {
    |buf| >= HEADER && |buf| >= Needed(buf)
  }

  /** The complete messages at the front, and what is after them. */
  function Messages(buf: seq<byte>): seq<seq<byte>>
    decreases |buf|
  {
    if !Complete(buf) then [] else [buf[..Needed(buf)]] + Messages(buf[Needed(buf)..])
  }

  function Rest(buf: seq<byte>): seq<byte>
    decreases |buf|
  {
    if !Complete(buf) then buf else Rest(buf[Needed(buf)..])
  }

  /** More bytes change nothing about the messages already complete. */
  lemma {:induction false} SplitAppend(a: seq<byte>, b: seq<byte>)
    ensures Messages(a + b) == Messages(a) + Messages(Rest(a) + b)
    ensures Rest(a + b) == Rest(Rest(a) + b)
    decreases |a|
  {
    if Complete(a) {
      var n := Needed(a);
      assert (a + b)[1..HEADER] == a[1..HEADER];
      assert (a + b)[..n] == a[..n] && (a + b)[n..] == a[n..] + b;
      SplitAppend(a[n..], b);
    } else {
      assert Messages(a) == [] && Rest(a) == a;
    }
  }

  predicate IsMessage(m: seq<byte>) {
    Complete(m) && |m| == Needed(m)
  }

  function Concat(parts: seq<seq<byte>>): seq<byte> {
    if parts == [] then [] else parts[0] + Concat(parts[1..])
  }

  lemma MessageIsOne(typ: byte, body: seq<byte>)
    requires |body| < 0x100_0000
    ensures IsMessage(MessageBytes(typ, body))
  {
    var m := MessageBytes(typ, body);
    assert m[1..HEADER] == U24(|body|);
    U24RoundTrip(|body|);
  }

  /** Messages come out of their concatenation as they went in. */
  lemma {:induction false} MessagesOfConcat(ms: seq<seq<byte>>)
    requires forall i :: 0 <= i < |ms| ==> IsMessage(ms[i])
    ensures Messages(Concat(ms)) == ms && Rest(Concat(ms)) == []
  {
    if ms != [] {
      var m, tail := ms[0], Concat(ms[1..]);
      assert (m + tail)[1..HEADER] == m[1..HEADER];
      assert (m + tail)[..|m|] == m && (m + tail)[|m|..] == tail;
      MessagesOfConcat(ms[1..]);
    }
  }

  /** ssl3_add_message: the pieces of one message, none longer than max, of which there is at least
      one. */
  method SplitIntoRecords(msg: seq<byte>, max: nat) returns (chunks: seq<seq<byte>>)
    requires max > 0
    ensures Concat(chunks) == msg && chunks != []
    ensures forall i :: 0 <= i < |chunks| ==> |chunks[i]| <= max
  {
    chunks := [];
    var rest := msg;
    var more := true;
    while more
      invariant Concat(chunks) + rest == msg
      invariant forall i :: 0 <= i < |chunks| ==> |chunks[i]| <= max
      invariant !more ==> rest == [] && chunks != []
      decreases |rest| + if more then 1 else 0
    {
      var n := if |rest| < max then |rest| else max;
      ConcatSnoc(chunks, rest[..n]);
      assert rest == rest[..n] + rest[n..];
      assert Concat(chunks) + rest == (Concat(chunks) + rest[..n]) + rest[n..];
      chunks, rest := chunks + [rest[..n]], rest[n..];
      more := rest != [];
    }
    assert Concat(chunks) + [] == Concat(chunks);
  }

  lemma {:induction false} ConcatSnoc(parts: seq<seq<byte>>, x: seq<byte>)
    ensures Concat(parts + [x]) == Concat(parts) + x
  {
    if parts == [] {
      assert Concat([x]) == x + Concat([x][1..]);
    } else {
      assert (parts + [x])[1..] == parts[1..] + [x];
      ConcatSnoc(parts[1..], x);
    }
  }

  /** hs_buf and its users. */
  class HandshakeBuffer {
    var buf: seq<byte>
    /** Every record appended, and every message taken. */
    ghost var received: seq<byte>
    ghost var taken: seq<seq<byte>>

    /** The messages taken and those still to come are those of the byte stream, wherever its records
        began and ended. */
    ghost predicate Valid()
      reads this
    {
      Messages(received) == taken + Messages(buf) && Rest(received) == Rest(buf)
    }

    constructor ()
      ensures Valid() && buf == [] && received == [] && taken == []
    {
      buf, received, taken := [], [], [];
    }

    /** ssl3_open_handshake on a handshake record: refused while a whole message waits, or when the
        message being assembled is longer than allowed. */
    method Append(record: seq<byte>, maxMessage: nat) returns (ok: bool)
      requires Valid()
      modifies this
      ensures Valid() && taken == old(taken)
      ensures ok <==> !Complete(old(buf)) && Needed(old(buf)) <= HEADER + maxMessage
      ensures received == if ok then old(received) + record else old(received)
      ensures buf == if ok then old(buf) + record else old(buf)
    {
      if Complete(buf) {
        return false;
      }
      if Needed(buf) > HEADER + maxMessage {
        return false;
      }
      SplitAppend(received, record);
      SplitAppend(buf, record);
      assert Rest(buf) == buf && Messages(buf) == [];
      assert taken + [] + Messages(buf + record) == taken + Messages(buf + record);
      buf, received := buf + record, received + record;
      return true;
    }

    /** ssl3_get_message: the message at the front, which stays there. */
    method GetMessage() returns (ok: bool, raw: seq<byte>)
      requires Valid()
      ensures ok <==> Messages(buf) != []
      ensures ok ==> raw == Messages(buf)[0] && IsMessage(raw) && raw <= buf
    {
      if !Complete(buf) {
        return false, [];
      }
      ok, raw := true, buf[..Needed(buf)];
      assert raw[1..HEADER] == buf[1..HEADER];
    }

    /** ssl3_next_message. */
    method NextMessage()
      requires Valid() && Complete(buf)
      modifies this
      ensures Valid() && received == old(received) && taken == old(taken) + [Messages(old(buf))[0]]
      ensures Messages(buf) == Messages(old(buf))[1..]
    {
      var n := Needed(buf);
      assert taken + Messages(buf) == (taken + [buf[..n]]) + Messages(buf[n..]);
      taken, buf := taken + [buf[..n]], buf[n..];
    }
  }

  /** However the sender cut its messages into records and however far they have arrived, what has been
      taken is the first of its messages, whole and in order. */
  lemma TakenArePrefix(h: HandshakeBuffer, sent: seq<seq<byte>>)
    requires h.Valid() && (forall i :: 0 <= i < |sent| ==> IsMessage(sent[i]))
    requires h.received <= Concat(sent)
    ensures h.taken <= sent
  {
    hide Concat, Messages, Rest, IsMessage;
    var a := h.received;
    MessagesOfConcat(sent);
    SplitAppend(a, Concat(sent)[|a|..]);
    assert a + Concat(sent)[|a|..] == Concat(sent);
  }

  /** A message to be sent: what ssl3_init_message and ssl3_finish_message are given. */
  datatype Outgoing = Outgoing(typ: byte, body: seq<byte>)

  ghost predicate Sendable(out: seq<Outgoing>) {
    forall i :: 0 <= i < |out| ==> |out[i].body| < 0x100_0000
  }

  function Built(out: seq<Outgoing>): (ms: seq<seq<byte>>)
    requires Sendable(out)
    ensures |ms| == |out|
  {
    seq(|out|, i requires 0 <= i < |out| => MessageBytes(out[i].typ, out[i].body))
  }

  lemma {:induction false} ConcatAppend(a: seq<seq<byte>>, b: seq<seq<byte>>)
    ensures Concat(a + b) == Concat(a) + Concat(b)
  {
    if a == [] {
      assert a + b == b;
    } else {
      assert (a + b)[1..] == a[1..] + b;
      ConcatAppend(a[1..], b);
    }
  }

  /** A flight of messages, each built and cut into records in its turn. */
  method SendAll(out: seq<Outgoing>, max: nat) returns (records: seq<seq<byte>>)
    requires Sendable(out) && max > 0
    ensures Concat(records) == Concat(Built(out))
    ensures forall i :: 0 <= i < |records| ==> |records[i]| <= max
  {
    records := [];
    for k := 0 to |out|
      invariant Concat(records) == Concat(Built(out)[..k])
      invariant forall i :: 0 <= i < |records| ==> |records[i]| <= max
    {
      var chunks := SplitIntoRecords(MessageBytes(out[k].typ, out[k].body), max);
      ConcatAppend(records, chunks);
      assert Built(out)[..k + 1] == Built(out)[..k] + [Built(out)[k]];
      ConcatSnoc(Built(out)[..k], Built(out)[k]);
      records := records + chunks;
    }
    assert Built(out)[..|out|] == Built(out);
  }

  /** From one end to the other: of the records of a flight, as far as they have arrived, the reader
      takes exactly the first messages built, type, length and body. */
  lemma TakenAreBuilt(h: HandshakeBuffer, out: seq<Outgoing>, records: seq<seq<byte>>, n: nat)
    requires h.Valid() && Sendable(out) && Concat(records) == Concat(Built(out))
    requires n <= |records| && h.received == Concat(records[..n])
    ensures h.taken <= Built(out)
  {
    forall i | 0 <= i < |out|
      ensures IsMessage(Built(out)[i])
    {
      MessageIsOne(out[i].typ, out[i].body);
    }
    assert records == records[..n] + records[n..];
    ConcatAppend(records[..n], records[n..]);
    TakenArePrefix(h, Built(out));
  }
}
