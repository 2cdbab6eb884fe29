/** handshake_client.cc below TLS 1.3: the client's state machine. What is decided outside it
    (parsing, certificates, keys, callbacks) is decided by `*`. */
module TlsClient {
  import opened Words
  import opened TlsScript
  import opened TlsConnection
  import opened DtlsWire

  datatype State = StartConnect | EnterEarlyData | ReadHelloVerifyRequest | ReadServerHello
                 | ReadServerCertificate | ReadCertificateStatus | VerifyServerCertificate
                 | ReadServerKeyExchange | ReadCertificateRequest | ReadServerHelloDone
                 | SendClientCertificate | SendClientKeyExchange | SendClientCertificateVerify
                 | SendClientFinished | FinishFlight | ReadSessionTicket | ProcessChangeCipherSpec
                 | ReadServerFinished | FinishClientHandshake | Done

  datatype KeyExchange = Rsa | Ecdhe | Psk

  /** How many parts of the script lie behind the state. */
  function Behind(s: State, p: Params, ccsRead: bool): nat {
    match s
    case StartConnect => 0
    case EnterEarlyData | ReadHelloVerifyRequest => 1
    case ReadServerHello => 2
    case ReadServerCertificate => 3
    case ReadCertificateStatus => 4
    case VerifyServerCertificate | ReadServerKeyExchange => 5
    case ReadCertificateRequest => 6
    case ReadServerHelloDone => 7
    case SendClientCertificate => 8
    case SendClientKeyExchange => 9
    case SendClientCertificateVerify => 10
    case SendClientFinished => if p.resumed then 6 else 11
    case FinishFlight => if p.resumed then 10 else 15
    case ReadSessionTicket => if p.resumed then 3 else 15
    case ProcessChangeCipherSpec => (if p.resumed then 4 else 16) + if ccsRead then 1 else 0
    case ReadServerFinished => if p.resumed then 5 else 17
    case FinishClientHandshake | Done => Parts(p)
  }

  /** A rank that every step drops unless it has to wait. */
  function Rank(s: State, resumed: bool): nat {
    match s
    case StartConnect => 20
    case EnterEarlyData => 19
    case ReadHelloVerifyRequest => 18
    case ReadServerHello => 17
    case ReadServerCertificate => 16
    case ReadCertificateStatus => 15
    case VerifyServerCertificate => 14
    case ReadServerKeyExchange => 13
    case ReadCertificateRequest => 12
    case ReadServerHelloDone => 11
    case SendClientCertificate => 10
    case SendClientKeyExchange => 9
    case SendClientCertificateVerify => 8
    case SendClientFinished => if resumed then 3 else 7
    case FinishFlight => if resumed then 2 else 6
    case ReadSessionTicket => if resumed then 6 else 5
    case ProcessChangeCipherSpec => if resumed then 5 else 4
    case ReadServerFinished => if resumed then 4 else 3
    case FinishClientHandshake => 1
    case Done => 0
  }

  /** The flags a state can come with. */
  predicate Fits(s: State, p: Params) {
    var rank := Rank(s, p.resumed);
    && (p.resumed ==> rank <= 6)
    && (p.hvr ==> rank <= 17)
    && (rank <= 11 && !p.resumed && p.request ==> p.certAuth)
  }

  /** The states after verification, so all in which something can be sent on the server's key. */
  predicate MustBeVerified(s: State, p: Params) {
    p.certAuth && !p.resumed && Rank(s, p.resumed) <= 13
  }

  /** The new keys are in use for reading. */
  predicate ReadsSealed(s: State, resumed: bool) {
    Rank(s, resumed) <= if resumed then 4 else 3
  }

  /** The new keys are in use for writing. */
  predicate WritesSealed(s: State, resumed: bool) {
    Rank(s, resumed) <= if resumed then 2 else 6
  }

  /** The step from state s with flags p to state t with flags q keeps the state's facts. */
  predicate Moves(s: State, p: Params, t: State, q: Params) {
    && Rank(t, q.resumed) < Rank(s, p.resumed) && (Fits(s, p) ==> Fits(t, q))
    && (MustBeVerified(t, q) ==> MustBeVerified(s, p))
    && ReadsSealed(t, q.resumed) == ReadsSealed(s, p.resumed) && WritesSealed(t, q.resumed) == WritesSealed(s, p.resumed)
  }

  lemma HelloMoves(p: Params, q: Params, ccs: bool)
    requires !p.resumed && p.hvr == q.hvr && !q.request
    ensures Moves(State.ReadServerHello, p, if q.resumed then ReadSessionTicket else ReadServerCertificate, q)
    ensures Behind(State.ReadServerHello, p, ccs) == 2 && !ReadsSealed(State.ReadServerHello, p.resumed)
    ensures Behind(if q.resumed then ReadSessionTicket else ReadServerCertificate, q, ccs) == 3
  {
  }

  lemma TicketMoves(p: Params, sent: bool, ccs: bool)
    ensures Moves(ReadSessionTicket, p, ProcessChangeCipherSpec, p.(ticket := sent))
    ensures !ReadsSealed(ReadSessionTicket, p.resumed)
    ensures Behind(ReadSessionTicket, p, ccs) == if p.resumed then 3 else 15
    ensures Behind(ProcessChangeCipherSpec, p.(ticket := sent), false) == if p.resumed then 4 else 16
  {
  }

  lemma NotResumed(s: State, p: Params)
    requires Fits(s, p) && (s == State.ReadServerHello || s == SendClientCertificateVerify)
    ensures !p.resumed
  {
  }

  lemma VerifyMoves(p: Params, sent: bool, ccs: bool)
    requires !p.resumed
    ensures Moves(SendClientCertificateVerify, p, SendClientFinished, p.(verify := sent))
    ensures !WritesSealed(SendClientCertificateVerify, p.resumed)
    ensures Behind(SendClientCertificateVerify, p, ccs) == 10
    ensures Behind(SendClientFinished, p.(verify := sent), ccs) == 11
  {
  }

  /** What ServerHello says besides the parameters, and what cert_cb has found: the key exchange, the
      announcement of CertificateStatus and of a ticket, and whether the client has a certificate. */
  datatype Choices = Choices(keyExchange: KeyExchange, status: bool, ticket: bool, certificate: bool)

  /** The flags that are settled before the state are what has been announced and chosen. */
  predicate Settled(s: State, p: Params, c: Choices) {
    var rank := Rank(s, p.resumed);
    && (rank <= 14 && !p.resumed && p.status ==> c.status)
    && (rank <= 12 && !p.resumed ==> (c.keyExchange.Ecdhe? ==> p.ske) && (c.keyExchange.Rsa? ==> !p.ske))
    && (rank <= 7 && !p.resumed ==> p.verify == (p.request && c.certificate))
    && (rank <= (if p.resumed then 5 else 4) ==> p.ticket == c.ticket)
  }

  /** A step that settles nothing. */
  lemma StaysSettled(s: State, t: State, p: Params, q: Params, c: Choices)
    requires Settled(s, p, c) && q == p.(hvr := q.hvr, request := q.request) && (q.request != p.request ==> Rank(s, p.resumed) > 7)
    requires var before, after := Rank(s, p.resumed), Rank(t, p.resumed);
             if p.resumed then after < before <= 5 else after < before && (after > 14 || 7 < after < before <= 12 || 4 < after < before <= 7 || before <= 4)
    ensures Settled(t, q, c)
  {
  }

  lemma HelloSettles(q: Params, c: Choices)
    ensures Settled(if q.resumed then ReadSessionTicket else ReadServerCertificate, q, c)
  {
  }

  lemma KeyExchangeSettles(p: Params, c: Choices, sent: bool)
    requires Settled(ReadServerKeyExchange, p, c) && (c.keyExchange.Ecdhe? ==> sent) && (c.keyExchange.Rsa? ==> !sent)
    ensures !p.resumed ==> Settled(ReadCertificateRequest, p.(ske := sent), c)
  {
  }

  lemma VerifySettles(p: Params, c: Choices)
    requires Settled(SendClientCertificateVerify, p, c)
    ensures !p.resumed ==> Settled(SendClientFinished, p.(verify := p.request && c.certificate), c)
  {
  }

  lemma CertificateSettles(p: Params, c: Choices, certificate: bool)
    requires Settled(SendClientCertificate, p, c) && !p.resumed
    ensures Settled(SendClientKeyExchange, p, c.(certificate := certificate))
  {
  }

  class Client {
    const conn: Connection
    const dtls: bool
    var state: State
    /** What ssl_run_handshake resolves before the next step. */
    var wait: Wait
    /** The handshake flags: the negotiated parameters as far as they are known. */
    var p: Params
    var chosen: Choices
    /** ticket_expected: cleared by an empty ticket. */
    var ticketExpected: bool
    /** ssl_verify_peer_cert has succeeded. */
    var certVerified: bool
    /** The ChangeCipherSpec waited for has been read. */
    ghost var ccsRead: bool

    /** What holds between steps: the log is the script up to the state's place, everything in it is
        hashed exactly once, and the keys in use are the state's. */
    ghost predicate Inv()
      reads `state, `p, `ccsRead, `certVerified, `chosen, `ticketExpected, conn
    {
      && conn.Valid() && conn.Hashed() && !conn.server
      && Marks(conn.log) == Script(p, Behind(state, p, ccsRead))
      && Fits(state, p) && (MustBeVerified(state, p) ==> certVerified)
      && conn.sealedRead == ReadsSealed(state, p.resumed) && conn.sealedWrite == WritesSealed(state, p.resumed)
      && (state.ProcessChangeCipherSpec? && ccsRead ==> conn.ready == 0)
      && (p.hvr || state.ReadHelloVerifyRequest? ==> dtls)
      && Settled(state, p, chosen) && (Rank(state, p.resumed) >= (if p.resumed then 6 else 5) ==> ticketExpected == chosen.ticket)
    }

    /** At any moment, even after an error: the key exchange has only been sent on a verified
        certificate, if the cipher has one. */
    ghost predicate Safe()
      reads `p, `certVerified, conn
    {
      && conn.Valid() && !conn.server
      && (C(ClientKeyExchange) in Marks(conn.log) && p.certAuth && !p.resumed ==> certVerified)
    }

    /** What every step does. An error ends the run; any other way out leaves a state from which the
        handshake goes on, and a step that has to be repeated has done nothing. */
    twostate predicate Stepped(w: Wait)
      reads this, conn
    {
      && (if w.Error? then Safe() else Inv())
      && old(conn.log) <= conn.log && conn.delivered == old(conn.delivered)
      && (w.Ok? ==> Rank(state, p.resumed) < old(Rank(state, p.resumed)))
      && (!w.Error? && state != old(state) ==> Rank(state, p.resumed) < old(Rank(state, p.resumed)))
      && (!w.Error? && state == old(state) ==>
            conn.log == old(conn.log) && conn.transcript == old(conn.transcript) && conn.ready == old(conn.ready) && p == old(p))
      && (w.Flush? || w.ReadChangeCipherSpec? ==> Rank(state, p.resumed) < old(Rank(state, p.resumed)))
      && (w.ReadMessage? || w.ReadHello? ==> conn.ready == 0)
      && (!w.Error? ==> (state.ProcessChangeCipherSpec? ==> w.ReadChangeCipherSpec? && !ccsRead))
      && (w.ReadChangeCipherSpec? ==> state.ProcessChangeCipherSpec? && !ccsRead)
    }

    /** What holds between calls of ssl_run_handshake. */
    ghost predicate Resting()
      reads this, conn
    {
      && (if wait.Error? then Safe() else Inv())
      && (!wait.Error? ==> (state.ProcessChangeCipherSpec? <==> wait.ReadChangeCipherSpec?))
      && (wait.ReadChangeCipherSpec? ==> !ccsRead)
      && (wait.ReadMessage? || wait.ReadHello? ==> conn.ready == 0)
    }

    lemma InvIsSafe()
      requires Inv()
      ensures Safe()
    {
      hide Script, Part, Marks, Connection.Valid, Connection.Hashed;
      if C(ClientKeyExchange) in Marks(conn.log) {
        KeyExchangePlace(p, Behind(state, p, ccsRead));
      }
    }

    /** What has not changed the log has not made a client unsafe. */
    twostate lemma StillSafe()
      requires old(Safe()) && conn.Valid() && conn.log == old(conn.log) && unchanged(this)
      ensures Safe()
    {
      hide Marks, Connection.Valid;
    }

    constructor (conn: Connection, dtls: bool)
      requires conn.Valid() && conn.Hashed() && !conn.server && conn.log == []
      requires !conn.sealedRead && !conn.sealedWrite
      ensures Resting() && !wait.Error? && this.conn == conn && state == StartConnect
    {
      this.conn, this.dtls := conn, dtls;
      state, wait, p := StartConnect, Ok, NO_PARAMS;
      chosen, ticketExpected, certVerified := Choices(Rsa, false, false, false), false, false;
      ccsRead := false;
    }

    method DoStartConnect() returns (w: Wait)
      requires Inv() && state == StartConnect
      modifies this, conn
      ensures Stepped(w)
    {
      hide Marks, MarkOf, Script, NextPart, Connection.Valid, Connection.Hashed;
      InvIsSafe();
      if * {
        return Error;
      }
      var body := *;
      SamePart(p, 0);
      conn.Say(true, ClientHello, body, p, p, 0);
      state := EnterEarlyData;
      return Flush;
    }

    /** Only DTLS has a HelloVerifyRequest to look for. */
    method DoEnterEarlyData() returns (w: Wait)
      requires Inv() && state == EnterEarlyData
      modifies this
      ensures Stepped(w)
      ensures w.Ok? && state == if dtls then ReadHelloVerifyRequest else State.ReadServerHello
    {
      hide Marks, MarkOf, Script, NextPart, Connection.Valid, Connection.Hashed;
      if dtls {
        state := ReadHelloVerifyRequest;
        return Ok;
      }
      SamePart(p, 1);
      Advance(p, p, 1, conn.log, conn.log);
      state := ReadServerHello;
      return Ok;
    }

    method DoReadHelloVerifyRequest() returns (w: Wait)
      requires Inv() && state == ReadHelloVerifyRequest
      modifies this, conn
      ensures Stepped(w)
    {
      hide Marks, MarkOf, Script, NextPart, Connection.Valid, Connection.Hashed;
      InvIsSafe();
      var ms := conn.GetMessage();
      if ms == [] {
        return ReadMessage;
      }
      if !ms[0].kind.HelloVerifyRequest? {
        SamePart(p, 1);
        Advance(p, p, 1, conn.log, conn.log);
        state := ReadServerHello;
        return Ok;
      }
      if * {
        return Error;
      }
      w := AnswerVerifyRequest();
    }

    /** HelloVerifyRequest is taken, the transcript begun anew, and ClientHello sent again. */
    method AnswerVerifyRequest() returns (w: Wait)
      requires Inv() && state == ReadHelloVerifyRequest
      requires conn.ready > 0 && conn.inbox[0].what.Handshake? && conn.inbox[0].what.msg.kind.HelloVerifyRequest?
      modifies this, conn
      ensures Stepped(w)
    {
      hide Marks, MarkOf, Script, NextPart, Connection.Valid, Connection.Hashed, Settled, Safe;
      StaysSettled(state, State.ReadServerHello, p, p.(hvr := true), chosen);
      ScriptStarts(p, 1);
      ghost var log := conn.log;
      conn.NextAndReset();
      var body := *;
      conn.AddMessage(Msg(ClientHello, body, false));
      var q := p.(hvr := true);
      VerifyRequestNext(p);
      Marks2(log, conn.log);
      Advance(p, q, 1, log, conn.log);
      p := q;
      state := ReadServerHello;
      return Flush;
    }

    method DoReadServerHello() returns (w: Wait)
      requires Inv() && state == State.ReadServerHello
      modifies this, conn
      ensures Stepped(w)
    {
      hide Marks, MarkOf, Script, Part, NextPart, Connection.Valid, Connection.Hashed;
      InvIsSafe();
      var ms := conn.GetMessage();
      if ms == [] {
        return ReadHello;
      }
      if !ms[0].kind.ServerHello? {
        return Error;
      }
      var resumed, certAuth, npn, channelId := *, *, *, *;
      w := TakeHello(Params(p.hvr, resumed, certAuth, false, false, false, false, npn, channelId, false));
    }

    /** ServerHello is taken, and the parameters are settled. */
    method TakeHello(q: Params) returns (w: Wait)
      requires Inv() && state == State.ReadServerHello && q.hvr == p.hvr && !q.request
      requires conn.ready > 0 && conn.inbox[0].what.Handshake? && conn.inbox[0].what.msg.kind.ServerHello?
      modifies this, conn
      ensures Stepped(w)
    {
      hide Marks, MarkOf, Script, Part, NextPart, Connection.Valid, Connection.Hashed, Settled, Safe;
      InvIsSafe();
      NotResumed(state, p);
      HelloNext(p, q);
      HelloMoves(p, q, ccsRead);
      var ok := conn.Take(true, p, q, 2, Kind.ServerHello);
      if !ok {
        StillSafe();
        return Error;
      }
      var keyExchange, status, ticket := *, *, *;
      chosen, ticketExpected := Choices(keyExchange, status, ticket, false), ticket;
      HelloSettles(q, chosen);
      p := q;
      state := if q.resumed then ReadSessionTicket else ReadServerCertificate;
      return Ok;
    }

    method DoReadServerCertificate() returns (w: Wait)
      requires Inv() && state == ReadServerCertificate
      modifies this, conn
      ensures Stepped(w)
    {
      hide Marks, MarkOf, Script, NextPart, Connection.Valid, Connection.Hashed, Settled, Safe;
      StaysSettled(state, ReadCertificateStatus, p, p, chosen);
      InvIsSafe();
      var ms := conn.GetMessage();
      if p.certAuth && ms == [] {
        return ReadMessage;
      }
      if p.certAuth && !ms[0].kind.Certificate? {
        return Error;
      }
      SamePart(p, 3);
      var ok := conn.Take(p.certAuth, p, p, 3, Certificate);
      if !ok {
        StillSafe();
        return Error;
      }
      state := ReadCertificateStatus;
      return Ok;
    }

    /** A server may announce CertificateStatus and then not send it. */
    method DoReadCertificateStatus() returns (w: Wait)
      requires Inv() && state == ReadCertificateStatus
      modifies this, conn
      ensures Stepped(w)
    {
      hide Marks, MarkOf, Script, NextPart, Connection.Valid, Connection.Hashed;
      InvIsSafe();
      var ms := conn.GetMessage();
      if chosen.status && ms == [] {
        return ReadMessage;
      }
      w := TakeStatus(chosen.status && ms[0].kind.CertificateStatus?);
    }

    /** CertificateStatus is taken if it was sent. */
    method TakeStatus(sent: bool) returns (w: Wait)
      requires Inv() && state == ReadCertificateStatus && (sent ==> chosen.status)
      requires sent ==> conn.ready > 0 && conn.inbox[0].what.Handshake? && conn.inbox[0].what.msg.kind.CertificateStatus?
      modifies this, conn
      ensures Stepped(w)
    {
      hide Marks, MarkOf, Script, NextPart, Connection.Valid, Connection.Hashed;
      InvIsSafe();
      StatusNext(p, sent);
      var ok := conn.Take(sent, p, p.(status := sent), 4, CertificateStatus);
      if !ok {
        return Error;
      }
      p, state := p.(status := sent), VerifyServerCertificate;
      return Ok;
    }

    method DoVerifyServerCertificate() returns (w: Wait)
      requires Inv() && state == VerifyServerCertificate
      modifies this, conn
      ensures Stepped(w)
    {
      hide Marks, MarkOf, Script, NextPart, Connection.Valid, Connection.Hashed;
      InvIsSafe();
      if p.certAuth {
        if {
          case true => certVerified := true;
          case true => return Error;
          case true => return Pending;
        }
      }
      state := ReadServerKeyExchange;
      return Ok;
    }

    /** Only a pure PSK cipher makes the message optional; static RSA forbids it. */
    method DoReadServerKeyExchange() returns (w: Wait)
      requires Inv() && state == ReadServerKeyExchange
      modifies this, conn
      ensures Stepped(w)
      ensures w.Ok? ==> old(conn.GetMessage()) != [] && p.ske == old(conn.GetMessage())[0].kind.ServerKeyExchange?
      ensures w.Ok? && chosen.keyExchange.Ecdhe? ==> p.ske
      ensures w.Ok? && chosen.keyExchange.Rsa? ==> !p.ske
    {
      hide Marks, MarkOf, Script, NextPart, Connection.Valid, Connection.Hashed;
      InvIsSafe();
      var ms := conn.GetMessage();
      if ms == [] {
        return ReadMessage;
      }
      var sent := ms[0].kind.ServerKeyExchange?;
      if (sent && chosen.keyExchange.Rsa?) || (!sent && chosen.keyExchange.Ecdhe?) {
        return Error;
      }
      w := TakeKeyExchange(sent);
    }

    /** ServerKeyExchange is taken if it was sent. */
    method TakeKeyExchange(sent: bool) returns (w: Wait)
      requires Inv() && state == ReadServerKeyExchange
      requires (chosen.keyExchange.Ecdhe? ==> sent) && (chosen.keyExchange.Rsa? ==> !sent)
      requires sent ==> conn.ready > 0 && conn.inbox[0].what.Handshake? && conn.inbox[0].what.msg.kind.ServerKeyExchange?
      modifies this, conn
      ensures Stepped(w) && chosen == old(chosen) && (w.Ok? ==> p.ske == sent)
    {
      hide Marks, MarkOf, Script, Part, NextPart, Connection.Valid, Connection.Hashed, Settled, Safe;
      InvIsSafe();
      KeyExchangeSettles(p, chosen, sent);
      KeyExchangeNext(p, sent);
      var ok := conn.Take(sent, p, p.(ske := sent), 5, ServerKeyExchange);
      if !ok {
        StillSafe();
        return Error;
      }
      p, state := p.(ske := sent), ReadCertificateRequest;
      return Ok;
    }

    method DoReadCertificateRequest() returns (w: Wait)
      requires Inv() && state == ReadCertificateRequest
      modifies this, conn
      ensures Stepped(w)
    {
      hide Marks, MarkOf, Script, NextPart, Connection.Valid, Connection.Hashed;
      InvIsSafe();
      var ms := conn.GetMessage();
      if p.certAuth && ms == [] {
        return ReadMessage;
      }
      var sent := p.certAuth && !ms[0].kind.ServerHelloDone?;
      if sent && !ms[0].kind.CertificateRequest? {
        return Error;
      }
      RequestNext(p, sent);
      var ok := conn.Take(sent, p, p.(request := sent), 6, CertificateRequest);
      if !ok {
        return Error;
      }
      p, state := p.(request := sent), ReadServerHelloDone;
      return Ok;
    }

    method DoReadServerHelloDone() returns (w: Wait)
      requires Inv() && state == ReadServerHelloDone
      modifies this, conn
      ensures Stepped(w)
    {
      hide Marks, MarkOf, Script, NextPart, Connection.Valid, Connection.Hashed;
      InvIsSafe();
      var ms := conn.GetMessage();
      if ms == [] {
        return ReadMessage;
      }
      if !ms[0].kind.ServerHelloDone? {
        return Error;
      }
      SamePart(p, 7);
      var ok := conn.Take(true, p, p, 7, ServerHelloDone);
      if !ok {
        return Error;
      }
      state := SendClientCertificate;
      return Ok;
    }

    /** cert_cb may choose a certificate, fail, or ask to be called again. A client without one sends an
        empty list. */
    method DoSendClientCertificate() returns (w: Wait)
      requires Inv() && state == SendClientCertificate
      modifies this, conn
      ensures Stepped(w)
      ensures w.Ok? && !p.request ==> conn.log == old(conn.log)
      ensures w.Ok? && p.request ==>
                && |conn.log| == |old(conn.log)| + 1 && conn.log[|old(conn.log)|].what.Handshake?
                && conn.log[|old(conn.log)|].what.msg.kind.Certificate?
                && (conn.log[|old(conn.log)|].what.msg.body != NO_CERTIFICATES <==> chosen.certificate)
    {
      hide Marks, MarkOf, Script, NextPart, Connection.Valid, Connection.Hashed, Settled;
      InvIsSafe();
      var list: seq<byte> := [];
      if p.request {
        var has;
        if {
          case true => has := *;
          case true => return Error;
          case true => return Pending;
        }
        var chain: seq<byte> := *;
        if has && (chain == [] || |chain| >= 0x100_0000) {
          return Error;
        }
        list := if has then chain else [];
      }
      w := SendCertificate(list);
    }

    /** The Certificate message with this list, if one was asked for. */
    method SendCertificate(list: seq<byte>) returns (w: Wait)
      requires Inv() && state == SendClientCertificate && |list| < 0x100_0000
      modifies this, conn
      ensures Stepped(w) && w.Ok? && p == old(p) && chosen.certificate == (list != [])
      ensures conn.log == if p.request then old(conn.log) + [Item(false, false, What.Handshake(Msg(Certificate, CertificateBody(list), false)))] else old(conn.log)
      ensures CertificateBody(list) != NO_CERTIFICATES <==> list != []
    {
      hide Marks, MarkOf, Script, NextPart, Connection.Valid, Connection.Hashed, Settled;
      CertificateSettles(p, chosen, list != []);
      SamePart(p, 8);
      conn.Say(p.request, Certificate, CertificateBody(list), p, p, 8);
      chosen := chosen.(certificate := list != []);
      state := SendClientKeyExchange;
      return Ok;
    }

    /** The message is in the transcript before the master secret is derived, which may fail. */
    method DoSendClientKeyExchange() returns (w: Wait)
      requires Inv() && state == SendClientKeyExchange
      modifies this, conn
      ensures Stepped(w)
    {
      hide Marks, MarkOf, Script, NextPart, Connection.Valid, Connection.Hashed;
      InvIsSafe();
      if * {
        return Error;
      }
      var body := *;
      SamePart(p, 9);
      conn.Say(true, ClientKeyExchange, body, p, p, 9);
      if * {
        return Error;
      }
      state := SendClientCertificateVerify;
      return Ok;
    }

    /** The private key may sign, fail, or answer later. */
    method DoSendClientCertificateVerify() returns (w: Wait)
      requires Inv() && state == SendClientCertificateVerify
      modifies this, conn
      ensures Stepped(w)
    {
      hide Marks, MarkOf, Script, NextPart, Connection.Valid, Connection.Hashed;
      InvIsSafe();
      if p.request && chosen.certificate {
        if {
          case true =>
          case true => return Error;
          case true => return Pending;
        }
      }
      w := SendProof();
    }

    /** CertificateVerify, of a client that was asked for a certificate and has one. */
    method SendProof() returns (w: Wait)
      requires Inv() && state == SendClientCertificateVerify
      modifies this, conn
      ensures Stepped(w)
    {
      hide Marks, MarkOf, Script, Part, NextPart, Connection.Valid, Connection.Hashed, Settled, Safe;
      var sent, body := p.request && chosen.certificate, *;
      NotResumed(state, p);
      VerifyMoves(p, sent, ccsRead);
      VerifySettles(p, chosen);
      VerifyNext(p, sent);
      conn.Say(sent, CertificateVerify, body, p, p.(verify := sent), 10);
      p, state := p.(verify := sent), SendClientFinished;
      return Ok;
    }

    method DoSendClientFinished() returns (w: Wait)
      requires Inv() && state == SendClientFinished
      modifies this, conn
      ensures Stepped(w)
    {
      hide Marks, MarkOf, Script, NextPart, Connection.Valid, Connection.Hashed;
      InvIsSafe();
      // Channel ID first, before anything that cannot be repeated
      if p.channelId {
        if {
          case true =>
          case true => return Error;
          case true => return Pending;
        }
      }
      SendFinishedFlight(Behind(state, p, ccsRead));
      state := FinishFlight;
      return Flush;
    }

    /** ChangeCipherSpec, then NextProto, ChannelID and Finished under the new keys. */
    method SendFinishedFlight(ghost k: nat)
      requires conn.Valid() && conn.Hashed() && !conn.server && k == (if p.resumed then 6 else 11)
      requires Marks(conn.log) == Script(p, k)
      modifies conn`log, conn`transcript, conn`sealedWrite
      ensures conn.Valid() && conn.Hashed() && conn.sealedWrite
      ensures Marks(conn.log) == Script(p, k + 4) && old(conn.log) <= conn.log
    {
      hide Marks, MarkOf, Script, NextPart, Connection.Valid, Connection.Hashed;
      ghost var log := conn.log;
      conn.AddChangeCipherSpec();
      Marks1(log, conn.log);
      SamePart(p, k);
      Advance(p, p, k, log, conn.log);
      conn.ChangeWriteKeys();
      var body := *;
      SamePart(p, k + 1);
      conn.Say(p.npn, NextProto, body, p, p, k + 1);
      SamePart(p, k + 2);
      conn.Say(p.channelId, ChannelId, body, p, p, k + 2);
      log := conn.log;
      conn.SendFinished();
      Marks1(log, conn.log);
      SamePart(p, k + 3);
      Advance(p, p, k + 3, log, conn.log);
    }

    /** The one way out of the handshake before its end, False Start, is for full TLS handshakes with ECDHE. */
    method DoFinishFlight() returns (w: Wait)
      requires Inv() && state == FinishFlight
      modifies this, conn
      ensures Stepped(w)
      ensures w.EarlyReturn? ==> !dtls && !p.resumed && chosen.keyExchange.Ecdhe?
    {
      hide Marks, MarkOf, Script, NextPart, Connection.Valid, Connection.Hashed;
      InvIsSafe();
      if p.resumed {
        state := FinishClientHandshake;
        return Ok;
      }
      if * {
        return Error;
      }
      state := ReadSessionTicket;
      if !dtls && chosen.keyExchange.Ecdhe? {
        var falseStart := *;
        return if falseStart then EarlyReturn else Ok;
      }
      return Ok;
    }

    method DoReadSessionTicket() returns (w: Wait)
      requires Inv() && state == ReadSessionTicket
      modifies this, conn
      ensures Stepped(w)
    {
      hide Marks, MarkOf, Script, Part, NextPart, Connection.Valid, Connection.Hashed;
      InvIsSafe();
      var ms := conn.GetMessage();
      if ticketExpected && ms == [] {
        return ReadMessage;
      }
      if ticketExpected && !ms[0].kind.NewSessionTicket? {
        return Error;
      }
      w := TakeTicket(ticketExpected);
      if ticketExpected {
        // cleared by an empty ticket
        ticketExpected := *;
      }
    }

    /** NewSessionTicket, if it is sent, is taken, and the client waits for ChangeCipherSpec. */
    method TakeTicket(sent: bool) returns (w: Wait)
      requires Inv() && state == ReadSessionTicket && sent == chosen.ticket
      requires sent ==> conn.ready > 0 && conn.inbox[0].what.Handshake? && conn.inbox[0].what.msg.kind.NewSessionTicket?
      modifies this, conn
      ensures Stepped(w) && (w.Error? || (w.ReadChangeCipherSpec? && p == old(p).(ticket := sent)))
    {
      hide Marks, MarkOf, Script, Part, NextPart, Connection.Valid, Connection.Hashed;
      InvIsSafe();
      TicketMoves(p, sent, ccsRead);
      TicketNext(p, sent);
      var ok := conn.Take(sent, p, p.(ticket := sent), Behind(state, p, ccsRead), NewSessionTicket);
      if !ok {
        return Error;
      }
      p, state, ccsRead := p.(ticket := sent), ProcessChangeCipherSpec, false;
      return ReadChangeCipherSpec;
    }

    method DoProcessChangeCipherSpec() returns (w: Wait)
      requires Inv() && state == ProcessChangeCipherSpec && ccsRead
      modifies this, conn
      ensures Stepped(w)
    {
      hide Marks, MarkOf, Script, NextPart, Connection.Valid, Connection.Hashed;
      InvIsSafe();
      if * {
        return Error;
      }
      conn.ChangeReadKeys();
      state := ReadServerFinished;
      return Ok;
    }

    method DoReadServerFinished() returns (w: Wait)
      requires Inv() && state == ReadServerFinished
      modifies this, conn
      ensures Stepped(w)
    {
      hide Marks, MarkOf, Script, NextPart, Connection.Valid, Connection.Hashed;
      InvIsSafe();
      ghost var k, log := Behind(state, p, ccsRead), conn.log;
      ScriptStarts(p, k);
      w := conn.GetFinished();
      if w != Ok {
        return;
      }
      Marks1(log, conn.log);
      SamePart(p, k);
      Advance(p, p, k, log, conn.log);
      state := if p.resumed then SendClientFinished else FinishClientHandshake;
    }

    method DoFinishClientHandshake() returns (w: Wait)
      requires Inv() && state == FinishClientHandshake
      modifies this, conn
      ensures Stepped(w)
    {
      hide Marks, MarkOf, Script, NextPart, Connection.Valid, Connection.Hashed;
      InvIsSafe();
      if * {
        return Error;
      }
      state := Done;
      return Ok;
    }

    method Step() returns (w: Wait)
      requires Inv() && state != Done && (state.ProcessChangeCipherSpec? ==> ccsRead)
      modifies this, conn
      ensures Stepped(w)
    {
      hide Inv, Stepped;
      match state
      case StartConnect => w := DoStartConnect();
      case EnterEarlyData => w := DoEnterEarlyData();
      case ReadHelloVerifyRequest => w := DoReadHelloVerifyRequest();
      case ReadServerHello => w := DoReadServerHello();
      case ReadServerCertificate => w := DoReadServerCertificate();
      case ReadCertificateStatus => w := DoReadCertificateStatus();
      case VerifyServerCertificate => w := DoVerifyServerCertificate();
      case ReadServerKeyExchange => w := DoReadServerKeyExchange();
      case ReadCertificateRequest => w := DoReadCertificateRequest();
      case ReadServerHelloDone => w := DoReadServerHelloDone();
      case SendClientCertificate => w := DoSendClientCertificate();
      case SendClientKeyExchange => w := DoSendClientKeyExchange();
      case SendClientCertificateVerify => w := DoSendClientCertificateVerify();
      case SendClientFinished => w := DoSendClientFinished();
      case FinishFlight => w := DoFinishFlight();
      case ReadSessionTicket => w := DoReadSessionTicket();
      case ProcessChangeCipherSpec => w := DoProcessChangeCipherSpec();
      case ReadServerFinished => w := DoReadServerFinished();
      case FinishClientHandshake => w := DoFinishClientHandshake();
    }

    /** ssl_client_handshake: steps until one has to wait. Ok only when the handshake is done. */
    method Handshake() returns (w: Wait)
      requires Inv() && (state.ProcessChangeCipherSpec? ==> ccsRead)
      modifies this, conn
      ensures if w.Error? then Safe() else Inv()
      ensures w.Ok? ==> state == Done
      ensures old(conn.log) <= conn.log && conn.delivered == old(conn.delivered)
      ensures !w.Error? ==> (state.ProcessChangeCipherSpec? <==> w.ReadChangeCipherSpec?) && (w.ReadChangeCipherSpec? ==> !ccsRead)
      ensures w.ReadMessage? || w.ReadHello? ==> conn.ready == 0
      ensures w.Flush? || w.ReadChangeCipherSpec? ==> Rank(state, p.resumed) < old(Rank(state, p.resumed))
      ensures !w.Error? && !w.Ok? ==> Rank(state, p.resumed) < old(Rank(state, p.resumed)) || (state == old(state) && conn.ready == old(conn.ready) && Rank(state, p.resumed) == old(Rank(state, p.resumed)))
    {
      hide Inv, Safe, Connection.Valid;
      w := Ok;
      while state != Done && w.Ok?
        invariant if w.Error? then Safe() else Inv()
        invariant old(conn.log) <= conn.log && conn.delivered == old(conn.delivered)
        invariant w.Ok? ==> (state.ProcessChangeCipherSpec? ==> ccsRead)
        invariant !w.Error? && !w.Ok? ==> (state.ProcessChangeCipherSpec? <==> w.ReadChangeCipherSpec?)
        invariant w.ReadChangeCipherSpec? ==> !ccsRead
        invariant w.ReadMessage? || w.ReadHello? ==> conn.ready == 0
        invariant w.Flush? || w.ReadChangeCipherSpec? ==> Rank(state, p.resumed) < old(Rank(state, p.resumed))
        invariant !w.Error? ==> Rank(state, p.resumed) < old(Rank(state, p.resumed)) || (state == old(state) && conn.ready == old(conn.ready) && Rank(state, p.resumed) == old(Rank(state, p.resumed)))
        decreases if w.Ok? then 1 else 0, Rank(state, p.resumed)
      {
        w := Step();
      }
    }

    /** What the caller of ssl_run_handshake is told: it can call again later, or it is over. */
    method ResolveWait() returns (go: bool)
      requires Resting() && !wait.Error?
      modifies this, conn
      ensures Inv() && state == old(state) && Rank(state, p.resumed) == old(Rank(state, p.resumed))
      ensures old(conn.log) <= conn.log && conn.delivered == old(conn.delivered)
      ensures !go ==> Resting() && !wait.Error?
      ensures old(wait).EarlyReturn? || old(wait).Pending? ==> !go
      ensures go ==> (state.ProcessChangeCipherSpec? ==> ccsRead)
      ensures go ==> (old(wait).ReadMessage? || old(wait).ReadHello? ==> conn.ready > 0)
    {
      hide Marks, MarkOf, Script, NextPart, Connection.Valid, Connection.Hashed, Settled;
      var blocked;
      match wait {
        case Ok => return true;
        case Flush =>
          go := *;
        case ReadMessage | ReadHello =>
          blocked, go := conn.OpenHandshake();
        case ReadChangeCipherSpec =>
          ghost var k, log := Behind(state, p, ccsRead), conn.log;
          blocked, go := conn.OpenChangeCipherSpec();
          if go {
            ccsRead := true;
            Marks1(log, conn.log);
            SamePart(p, k);
            Advance(p, p, k, log, conn.log);
          }
        case EarlyReturn | Pending =>
          wait := Ok;
          return false;
      }
    }

    /** ssl_run_handshake: resolve what the handshake waited for and step on, until it has to return to
        the caller. It ends whatever arrives, and however often it is called again it continues the
        same run. done is true exactly when the handshake has completed. */
    method Run() returns (done: bool)
      requires Resting()
      modifies this, conn
      ensures Resting() && old(conn.log) <= conn.log && conn.delivered == old(conn.delivered)
      ensures done ==> state == Done && !wait.Error?
    {
      hide Inv, Safe, Rank, Connection.Valid;
      if wait.Error? {
        return false;
      }
      while true
        invariant Resting() && !wait.Error?
        invariant old(conn.log) <= conn.log && conn.delivered == old(conn.delivered)
        decreases Rank(state, p.resumed), if wait.EarlyReturn? || wait.Pending? then 0 else if wait.ReadMessage? || wait.ReadHello? then 1 else 2
      {
        var go := ResolveWait();
        if !go {
          return false;
        }
        wait := Handshake();
        if wait.Error? {
          return false;
        }
        if wait.Ok? {
          return true;
        }
      }
    }

    /** A completed handshake: the log is the whole script, its Finished messages carry the MACs of the
        transcripts before them, and both directions are under the new keys. */
    lemma Completed()
      requires Resting() && state == Done && !wait.Error?
      ensures Marks(conn.log) == Script(p, Parts(p)) && FinishedOver(conn.log, conn.mac)
      ensures conn.transcript == TranscriptOf(conn.log) && conn.sealedRead && conn.sealedWrite
      ensures (p.certAuth && !p.resumed ==> certVerified) && (p.hvr ==> dtls)
    {
      hide Marks, Script;
      ScriptStarts(p, Parts(p));
    }

    /** What a completed full handshake holds: CertificateVerify exactly when a certificate was asked for
        and the client has one; a request only from a server with a certificate, which was verified;
        ServerKeyExchange as the key exchange says; a status only if announced, and a ticket as announced. */
    lemma CompletedFull()
      requires Resting() && state == Done && !wait.Error? && !p.resumed
      ensures var all := Marks(conn.log);
              && (C(CertificateVerify) in all <==> S(CertificateRequest) in all && chosen.certificate)
              && (S(CertificateRequest) in all <==> C(Certificate) in all)
              && (S(CertificateRequest) in all ==> S(Certificate) in all) && (S(Certificate) in all ==> certVerified)
              && (chosen.keyExchange.Ecdhe? ==> S(ServerKeyExchange) in all) && (chosen.keyExchange.Rsa? ==> S(ServerKeyExchange) !in all)
              && (S(CertificateStatus) in all ==> chosen.status) && (S(NewSessionTicket) in all <==> chosen.ticket)
              && C(ClientKeyExchange) in all
    {
      hide Marks, Script, Part;
      Completed();
      FullHolds(p);
    }

    /** And a completed resumption: the client shows and checks no certificate. */
    lemma CompletedResumed()
      requires Resting() && state == Done && !wait.Error? && p.resumed
      ensures var all := Marks(conn.log);
              && S(Certificate) !in all && S(CertificateRequest) !in all && S(ServerKeyExchange) !in all
              && C(Certificate) !in all && C(ClientKeyExchange) !in all && C(CertificateVerify) !in all
              && (S(NewSessionTicket) in all <==> chosen.ticket)
    {
      hide Marks, Script, Part;
      Completed();
      ResumedHolds(p);
    }
  }
}
