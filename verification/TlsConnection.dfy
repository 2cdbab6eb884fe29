/** What both handshake state machines use of the connection below them: messages in, messages out,
    the transcript, and Finished. */
module TlsConnection {
  import opened Words
  import opened TlsScript

  /** Every Finished in the log carries the MAC of the transcript before it, made by its sender. */
  ghost predicate FinishedOver(log: seq<Item>, mac: (seq<Msg>, bool) -> seq<byte>) {
    forall k :: 0 <= k < |log| && log[k].what.Handshake? && log[k].what.msg.kind.Finished? ==>
      log[k].what.msg.body == mac(TranscriptOf(log[..k]), log[k].fromServer)
  }

  lemma FinishedOverSnoc(log: seq<Item>, mac: (seq<Msg>, bool) -> seq<byte>, it: Item)
    requires FinishedOver(log, mac)
    requires it.what.Handshake? && it.what.msg.kind.Finished? ==> it.what.msg.body == mac(TranscriptOf(log), it.fromServer)
    ensures FinishedOver(log + [it], mac)
  {
    var all := log + [it];
    forall k | 0 <= k < |all| && all[k].what.Handshake? && all[k].what.msg.kind.Finished?
      ensures all[k].what.msg.body == mac(TranscriptOf(all[..k]), all[k].fromServer)
    {
      assert all[..k] == if k < |log| then log[..k] else log;
    }
  }

  class Connection {
    const server: bool
    /** The Finished MAC under this side's master secret: of a transcript, by server or client. */
    const mac: (seq<Msg>, bool) -> seq<byte>
    /** Everything sent and consumed, in order. */
    var log: seq<Item>
    var transcript: seq<Msg>
    /** Received and not consumed; the first `ready` items are messages out of the record layer. */
    var inbox: seq<Item>
    var ready: nat
    var sealedWrite: bool
    var sealedRead: bool
    /** Everything ever received. */
    ghost var delivered: seq<Item>

    /** A V2ClientHello is hashed when it is ready, before it is consumed. */
    ghost function Prehashed(): seq<Msg>
      reads this
    {
      if ready > 0 && inbox != [] && inbox[0].what.Handshake? && inbox[0].what.msg.v2 then [inbox[0].what.msg] else []
    }

    ghost predicate Valid()
      reads this
    {
      && From(log, !server) + inbox == delivered
      && (forall k :: 0 <= k < |inbox| ==> inbox[k].fromServer == !server)
      && ready <= |inbox|
      && (forall k :: 0 <= k < ready ==> inbox[k].what.Handshake? && inbox[k].sealed == sealedRead)
      && (forall k :: 0 <= k < ready && inbox[k].what.msg.v2 ==> server && k == 0 && log == [])
      && FinishedOver(log, mac)
    }

    /** Each message sent or consumed is in the transcript exactly once, in order. */
    ghost predicate Hashed()
      reads this
    {
      transcript == TranscriptOf(log) + Prehashed()
    }

    constructor (server: bool, mac: (seq<Msg>, bool) -> seq<byte>)
      ensures Valid() && Hashed() && this.server == server && this.mac == mac
      ensures log == [] && inbox == [] && ready == 0 && !sealedWrite && !sealedRead
    {
      this.server, this.mac := server, mac;
      log, transcript, inbox, ready := [], [], [], 0;
      sealedWrite, sealedRead, delivered := false, false, [];
    }

    /** The peer's items arrive, in the order they were sent. */
    method Deliver(items: seq<Item>)
      requires Valid() && forall k :: 0 <= k < |items| ==> items[k].fromServer == !server
      modifies `inbox, `delivered
      ensures Valid() && delivered == old(delivered) + items && inbox == old(inbox) + items
      ensures old(Hashed()) ==> Hashed()
    {
      inbox, delivered := inbox + items, delivered + items;
    }

    /** ssl_open_handshake: a record of one or more whole messages; only the very first message to a
        server may be a V2ClientHello. ok is false for a record of another kind. */
    method OpenHandshake() returns (blocked: bool, ok: bool)
      requires Valid() && Hashed() && ready == 0
      modifies `ready, `transcript
      ensures Valid() && Hashed() && (blocked ==> !ok)
      ensures blocked <==> inbox == []
      ensures ok <==> ready > 0
      ensures !ok ==> ready == 0 && transcript == old(transcript)
    {
      if inbox == [] {
        return true, false;
      }
      blocked := false;
      if inbox[0].what.ChangeCipherSpec? || inbox[0].sealed != sealedRead {
        return false, false;
      }
      if inbox[0].what.msg.v2 {
        if !server || log != [] {
          return false, false;
        }
        transcript := transcript + [inbox[0].what.msg];
        ready := 1;
        return false, true;
      }
      var more: nat := *;
      var n := 1;
      while n < |inbox| && n < more && inbox[n].what.Handshake? && inbox[n].sealed == sealedRead && !inbox[n].what.msg.v2
        invariant 1 <= n <= |inbox|
        invariant forall k :: 0 <= k < n ==> inbox[k].what.Handshake? && inbox[k].sealed == sealedRead && !inbox[k].what.msg.v2
      {
        n := n + 1;
      }
      ready := n;
      ok := true;
    }

    /** ssl_open_change_cipher_spec, and the check that no ready message is left over when the keys
        change. */
    method OpenChangeCipherSpec() returns (blocked: bool, ok: bool)
      requires Valid() && Hashed()
      modifies `inbox, `log
      ensures Valid() && Hashed() && (blocked ==> !ok)
      ensures ok ==> ready == 0 && old(inbox) != [] && log == old(log) + [old(inbox)[0]]
                     && MarkOf(old(inbox)[0]) == MarkCcs(!server)
      ensures !ok ==> log == old(log) && inbox == old(inbox)
    {
      if inbox == [] {
        return true, false;
      }
      if ready > 0 || !inbox[0].what.ChangeCipherSpec? {
        return false, false;
      }
      ConsumeHead();
      return false, true;
    }

    /** The head of the inbox passes into the log. */
    lemma ConsumedHead()
      requires inbox != [] && From(log, !server) + inbox == delivered && inbox[0].fromServer == !server
      ensures From(log + [inbox[0]], !server) + inbox[1..] == delivered
    {
      FromSnoc(log, inbox[0], !server);
      assert From(log, !server) + [inbox[0]] + inbox[1..] == From(log, !server) + inbox;
    }

    method ConsumeHead()
      requires Valid() && inbox != [] && inbox[0].what.ChangeCipherSpec? && ready == 0 && Hashed()
      modifies `inbox, `log
      ensures Valid() && Hashed() && log == old(log) + [old(inbox)[0]] && inbox == old(inbox)[1..]
    {
      hide TranscriptOf, From, FinishedOver;
      ConsumedHead();
      FinishedOverSnoc(log, mac, inbox[0]);
      TranscriptOfSnoc(log, inbox[0]);
      log, inbox := log + [inbox[0]], inbox[1..];
    }

    /** get_message. */
    function GetMessage(): (m: seq<Msg>)
      requires Valid()
      reads this
      ensures |m| <= 1 && (m == [] <==> ready == 0)
      ensures m != [] ==> inbox != [] && inbox[0] == Item(!server, sealedRead, Handshake(m[0]))
    {
      if ready == 0 then [] else [inbox[0].what.msg]
    }

    /** ssl_hash_message, on the message get_message shows: then it is in the transcript once, whether
        it was hashed when it was opened or is hashed now. */
    method HashMessage(m: Msg)
      requires Valid() && Hashed() && ready > 0 && m == inbox[0].what.msg
      modifies `transcript
      ensures Valid() && transcript == TranscriptOf(log) + [m]
    {
      if !m.v2 {
        transcript := transcript + [m];
      }
    }

    /** next_message, for a message that has been hashed exactly once. */
    method NextMessage()
      requires Valid() && ready > 0
      requires transcript == TranscriptOf(log) + [inbox[0].what.msg] && !inbox[0].what.msg.kind.HelloVerifyRequest?
      requires inbox[0].what.msg.kind.Finished? ==> inbox[0].what.msg.body == mac(TranscriptOf(log), !server)
      modifies `inbox, `ready, `log
      ensures Valid() && Hashed() && log == old(log) + [old(inbox)[0]]
      ensures MarkOf(log[|log| - 1]) == Mark(!server, sealedRead, old(inbox)[0].what.msg.kind)
      ensures inbox == old(inbox)[1..] && ready == old(ready) - 1
    {
      hide TranscriptOf, From, FinishedOver;
      ConsumedHead();
      FinishedOverSnoc(log, mac, inbox[0]);
      TranscriptOfSnoc(log, inbox[0]);
      log, inbox, ready := log + [inbox[0]], inbox[1..], ready - 1;
    }

    /** next_message for HelloVerifyRequest, and the new transcript begun after it. */
    method NextAndReset()
      requires Valid() && ready > 0 && log != []
      requires inbox[0].what.msg.kind.HelloVerifyRequest?
      modifies `inbox, `ready, `log, `transcript
      ensures Valid() && Hashed() && log == old(log) + [old(inbox)[0]]
      ensures MarkOf(log[|log| - 1]) == Mark(!server, sealedRead, HelloVerifyRequest)
    {
      hide TranscriptOf, From, FinishedOver;
      ConsumedHead();
      FinishedOverSnoc(log, mac, inbox[0]);
      TranscriptOfSnoc(log, inbox[0]);
      log, inbox, ready := log + [inbox[0]], inbox[1..], ready - 1;
      transcript := [];
    }

    /** add_message: into the flight and into the transcript. */
    method AddMessage(m: Msg)
      requires Valid() && Hashed() && !m.v2 && !m.kind.HelloVerifyRequest? && (!server || log != [])
      requires m.kind.Finished? ==> m.body == mac(TranscriptOf(log), server)
      modifies `log, `transcript
      ensures Valid() && Hashed() && log == old(log) + [Item(server, sealedWrite, Handshake(m))]
      ensures MarkOf(log[|log| - 1]) == Mark(server, sealedWrite, m.kind)
    {
      hide TranscriptOf, From, FinishedOver;
      var it := Item(server, sealedWrite, Handshake(m));
      FinishedOverSnoc(log, mac, it);
      TranscriptOfSnoc(log, it);
      FromSnoc(log, it, !server);
      transcript := transcript + [m];
      log := log + [it];
    }

    /** add_change_cipher_spec. */
    method AddChangeCipherSpec()
      requires Valid() && Hashed() && (!server || log != [])
      modifies `log
      ensures Valid() && Hashed() && log == old(log) + [Item(server, sealedWrite, ChangeCipherSpec)]
      ensures MarkOf(log[|log| - 1]) == MarkCcs(server)
    {
      hide TranscriptOf, From, FinishedOver;
      var it := Item(server, sealedWrite, ChangeCipherSpec);
      FinishedOverSnoc(log, mac, it);
      TranscriptOfSnoc(log, it);
      FromSnoc(log, it, !server);
      log := log + [it];
    }

    /** The next part of the script, read if it is sent: hash the message at hand, let its contents be
        parsed, and pass on. */
    method Take(sent: bool, ghost p: Params, ghost q: Params, ghost k: nat, ghost kind: Kind) returns (ok: bool)
      requires Valid() && Hashed() && Marks(log) == Script(p, k)
      requires NextPart(p, q, k, When(sent, Mark(!server, sealedRead, kind)))
      requires !kind.HelloVerifyRequest? && !kind.Finished?
      requires sent ==> ready > 0 && inbox[0].what.Handshake? && inbox[0].what.msg.kind == kind
      modifies `inbox, `ready, `log, `transcript
      ensures Valid() && old(log) <= log
      ensures ok ==> Hashed() && Marks(log) == Script(q, k + 1)
      ensures !ok || !sent ==> log == old(log)
    {
      hide Marks, MarkOf, Script, NextPart, TranscriptOf, From, FinishedOver;
      ghost var before := log;
      if sent {
        HashMessage(GetMessage()[0]);
        if * {
          return false;
        }
        NextMessage();
        Marks1(before, log);
      } else {
        assert Marks(log[|before|..]) == [];
      }
      Advance(p, q, k, before, log);
      return true;
    }

    /** The next part of the script, sent or left out. */
    method Say(sent: bool, kind: Kind, body: seq<byte>, ghost p: Params, ghost q: Params, ghost k: nat)
      requires Valid() && Hashed() && Marks(log) == Script(p, k) && (!server || log != [])
      requires NextPart(p, q, k, When(sent, Mark(server, sealedWrite, kind)))
      requires !kind.HelloVerifyRequest? && !kind.Finished?
      modifies `log, `transcript
      ensures Valid() && Hashed() && Marks(log) == Script(q, k + 1)
      ensures log == if sent then old(log) + [Item(server, sealedWrite, Handshake(Msg(kind, body, false)))] else old(log)
    {
      hide Marks, MarkOf, Script, NextPart, Valid, Hashed;
      ghost var before := log;
      if sent {
        AddMessage(Msg(kind, body, false));
        Marks1(before, log);
      } else {
        assert Marks(log[|before|..]) == [];
      }
      Advance(p, q, k, before, log);
    }

    /** ssl_send_finished. */
    method SendFinished()
      requires Valid() && Hashed() && (!server || log != [])
      modifies `log, `transcript
      ensures Valid() && Hashed()
      ensures log != [] && log[..|log| - 1] == old(log)
      ensures MarkOf(log[|log| - 1]) == Mark(server, sealedWrite, Finished)
    {
      hide TranscriptOf, From, FinishedOver;
      assert transcript == TranscriptOf(log);
      AddMessage(Msg(Finished, mac(transcript, server), false));
    }

    /** tls1_change_cipher_state for sending. */
    method ChangeWriteKeys()
      requires Valid() && Hashed()
      modifies `sealedWrite
      ensures Valid() && Hashed() && sealedWrite
    {
      sealedWrite := true;
    }

    /** tls1_change_cipher_state for receiving, with no message left over from before. */
    method ChangeReadKeys()
      requires Valid() && Hashed() && ready == 0
      modifies `sealedRead
      ensures Valid() && Hashed() && sealedRead
    {
      sealedRead := true;
    }

    /** ssl_get_finished: the MAC is taken before the message is hashed, and must match. */
    method GetFinished() returns (w: Wait)
      requires Valid() && Hashed() && log != []
      modifies `inbox, `ready, `log, `transcript
      ensures Valid() && w in {Ok, Error, ReadMessage}
      ensures !w.Ok? ==> log == old(log) && inbox == old(inbox) && ready == old(ready)
      ensures w.ReadMessage? ==> Hashed() && transcript == old(transcript) && ready == 0
      ensures w.Ok? ==> Hashed() && old(inbox) != [] && log == old(log) + [old(inbox)[0]]
                        && MarkOf(old(inbox)[0]) == Mark(!server, sealedRead, Finished)
    {
      hide TranscriptOf, From, FinishedOver;
      var ms := GetMessage();
      if ms == [] {
        return ReadMessage;
      }
      var m := ms[0];
      if !m.kind.Finished? {
        return Error;
      }
      assert transcript == TranscriptOf(log);
      var expected := mac(transcript, !server);
      HashMessage(m);
      if m.body != expected {
        return Error;
      }
      NextMessage();
      return Ok;
    }
  }
}
