/** handshake_server.cc below TLS 1.3: the server's state machine. What is decided outside it
    (parsing, sessions, certificates, keys, callbacks) is decided by `*`. */
module TlsServer {
  import opened Words
  import opened TlsScript
  import opened TlsConnection

  datatype State = StartAccept | ReadClientHello | SelectCertificate | SelectParameters | SendServerHello
                 | SendServerCertificate | SendServerKeyExchange | SendServerHelloDone
                 | ReadClientCertificate | VerifyClientCertificate | ReadClientKeyExchange
                 | ReadClientCertificateVerify | AwaitChangeCipherSpec | ProcessChangeCipherSpec
                 | ReadNextProto | ReadChannelId | ReadClientFinished | SendServerFinished
                 | FinishServerHandshake | Done

  /** How many parts of the script lie behind the state. */
  function Behind(s: State, p: Params, ccsRead: bool): nat {
    match s
    case StartAccept | ReadClientHello | SelectCertificate | SelectParameters => 0
    case SendServerHello => 2
    case SendServerCertificate => 3
    case SendServerKeyExchange => 5
    case SendServerHelloDone => 6
    case ReadClientCertificate => 8
    case VerifyClientCertificate | ReadClientKeyExchange => 9
    case ReadClientCertificateVerify => 10
    case AwaitChangeCipherSpec => if p.resumed then 6 else 11
    case ProcessChangeCipherSpec => (if p.resumed then 6 else 11) + if ccsRead then 1 else 0
    case ReadNextProto => if p.resumed then 7 else 12
    case ReadChannelId => if p.resumed then 8 else 13
    case ReadClientFinished => if p.resumed then 9 else 14
    case SendServerFinished => if p.resumed then 3 else 15
    case FinishServerHandshake | Done => Parts(p)
  }

  /** A rank that every step drops unless it has to wait. */
  function Rank(s: State, resumed: bool): nat {
    match s
    case StartAccept => 20
    case ReadClientHello => 19
    case SelectCertificate => 18
    case SelectParameters => 17
    case SendServerHello => 16
    case SendServerCertificate => 15
    case SendServerKeyExchange => 14
    case SendServerHelloDone => 13
    case ReadClientCertificate => 12
    case VerifyClientCertificate => 11
    case ReadClientKeyExchange => 10
    case ReadClientCertificateVerify => 9
    case AwaitChangeCipherSpec => 7
    case ProcessChangeCipherSpec => 6
    case ReadNextProto => 5
    case ReadChannelId => 4
    case ReadClientFinished => 3
    case SendServerFinished => if resumed then 8 else 2
    case FinishServerHandshake => 1
    case Done => 0
  }

  /** The flags a state can come with. */
  predicate Fits(s: State, p: Params, peerKey: bool) {
    var rank := Rank(s, p.resumed);
    && !p.hvr
    && (p.resumed ==> rank <= 16 && (rank > 8 ==> s.SendServerHello?))
    && (rank >= 17 || p.resumed ==> !p.request)
    && (rank > 11 || !p.request ==> !peerKey)
    && (!p.resumed && rank <= 8 ==> p.verify == peerKey)
  }

  /** A client certificate has been verified in every state after the one that does so. */
  predicate MustBeVerified(s: State, p: Params, peerKey: bool) {
    peerKey && Rank(s, p.resumed) <= 10
  }

  /** And its key has signed the transcript in every state after CertificateVerify. */
  predicate MustBeProved(s: State, p: Params, peerKey: bool) {
    peerKey && Rank(s, p.resumed) <= 8
  }

  /** The new keys are in use for reading. */
  predicate ReadsSealed(s: State, resumed: bool) {
    Rank(s, resumed) <= 5
  }

  /** The new keys are in use for writing. */
  predicate WritesSealed(s: State, resumed: bool) {
    Rank(s, resumed) <= if resumed then 7 else 1
  }

  /** The step from state s with flags p to state t with flags q keeps the state's facts. */
  predicate Moves(s: State, p: Params, t: State, q: Params, peerKey: bool) {
    && Rank(t, q.resumed) < Rank(s, p.resumed) && (Fits(s, p, peerKey) ==> Fits(t, q, peerKey))
    && (MustBeVerified(t, q, peerKey) ==> MustBeVerified(s, p, peerKey))
    && ReadsSealed(t, q.resumed) == ReadsSealed(s, p.resumed) && WritesSealed(t, q.resumed) == WritesSealed(s, p.resumed)
  }

  lemma ParametersMove(p: Params, q: Params, peerKey: bool, ccs: bool)
    requires Fits(SelectParameters, p, peerKey) && !q.hvr && (q.resumed ==> !q.request)
    ensures !p.hvr && Fits(SendServerHello, q, peerKey) && Rank(SendServerHello, q.resumed) < Rank(SelectParameters, p.resumed)
    ensures !MustBeVerified(SendServerHello, q, peerKey) && !MustBeProved(SendServerHello, q, peerKey)
    ensures ReadsSealed(SelectParameters, p.resumed) == ReadsSealed(SendServerHello, q.resumed) == false
    ensures WritesSealed(SelectParameters, p.resumed) == WritesSealed(SendServerHello, q.resumed)
    ensures Behind(SelectParameters, p, ccs) == 0 && Behind(SendServerHello, q, ccs) == 2
  {
  }

  /** What the steps that settle a flag do to the settled ones. */
  lemma HelloSettles(p: Params, q: Params, k: Config, c: Choices, peerKey: bool, serverParams: bool)
    requires Settled(SendServerHello, p, k, c, peerKey, serverParams) && q == p.(channelId := UsesChannelId(p, c))
    ensures Settled(if q.resumed then SendServerFinished else SendServerCertificate, q, k, c, peerKey, serverParams)
  {
  }

  lemma KeyExchangeSettles(p: Params, k: Config, c: Choices, peerKey: bool, serverParams: bool)
    requires Settled(SendServerKeyExchange, p, k, c, peerKey, serverParams) && !p.resumed
    ensures Settled(SendServerHelloDone, p.(ske := serverParams), k, c, peerKey, false)
  {
  }

  lemma FinishedSettles(p: Params, k: Config, c: Choices, peerKey: bool, serverParams: bool)
    requires Settled(SendServerFinished, p, k, c, peerKey, serverParams)
    ensures Settled(if p.resumed then AwaitChangeCipherSpec else FinishServerHandshake, p.(ticket := c.ticket), k, c, peerKey, serverParams)
  {
  }

  /** A step that settles nothing; `verify` is not among the settled flags. */
  lemma StaysSettled(s: State, t: State, p: Params, q: Params, k: Config, c: Choices, peerKey: bool, serverParams: bool)
    requires Settled(s, p, k, c, peerKey, serverParams) && q == p.(verify := q.verify)
    requires var before, after := Rank(s, p.resumed), Rank(t, p.resumed);
             if p.resumed then after < before <= 7 else 1 < after < before <= 11 || (before == 13 && after == 12)
    ensures Settled(t, q, k, c, peerKey, serverParams)
  {
  }

  lemma HelloMoves(p: Params, q: Params, peerKey: bool, ccs: bool)
    requires Fits(SendServerHello, p, peerKey) && q == p.(channelId := q.channelId)
    ensures var t := if q.resumed then SendServerFinished else SendServerCertificate;
            && Rank(t, q.resumed) < Rank(SendServerHello, p.resumed) && Fits(t, q, peerKey)
            && !MustBeVerified(t, q, peerKey) && !MustBeProved(t, q, peerKey)
            && Behind(t, q, ccs) == 3 && !ReadsSealed(t, q.resumed) && !WritesSealed(t, q.resumed)
    ensures Behind(SendServerHello, p, ccs) == 2
    ensures !ReadsSealed(SendServerHello, p.resumed) && !WritesSealed(SendServerHello, p.resumed)
  {
  }

  lemma KeyExchangeMoves(p: Params, q: Params, peerKey: bool, ccs: bool)
    requires Fits(SendServerKeyExchange, p, peerKey) && q == p.(ske := q.ske)
    ensures !p.resumed && Fits(SendServerHelloDone, q, peerKey)
    ensures Rank(SendServerHelloDone, q.resumed) < Rank(SendServerKeyExchange, p.resumed)
    ensures !MustBeVerified(SendServerHelloDone, q, peerKey) && !MustBeProved(SendServerHelloDone, q, peerKey)
    ensures ReadsSealed(SendServerHelloDone, q.resumed) == ReadsSealed(SendServerKeyExchange, p.resumed)
    ensures WritesSealed(SendServerHelloDone, q.resumed) == WritesSealed(SendServerKeyExchange, p.resumed) == false
    ensures Behind(SendServerKeyExchange, p, ccs) == 5 && Behind(SendServerHelloDone, q, ccs) == 6
  {
  }

  lemma CertificateMoves(p: Params, q: Params, peerKey: bool, ccs: bool)
    requires Fits(SendServerCertificate, p, peerKey) && q == p.(status := q.status)
    ensures !p.resumed && Moves(SendServerCertificate, p, SendServerKeyExchange, q, peerKey)
    ensures !MustBeProved(SendServerKeyExchange, q, peerKey)
    ensures Behind(SendServerCertificate, p, ccs) == 3 && !WritesSealed(SendServerCertificate, p.resumed)
    ensures Behind(SendServerKeyExchange, q, ccs) == 5
  {
  }

  lemma ProofMoves(p: Params, q: Params, peerKey: bool, ccs: bool)
    requires Fits(ReadClientCertificateVerify, p, peerKey) && q == p.(verify := peerKey)
    ensures !p.resumed && Moves(ReadClientCertificateVerify, p, AwaitChangeCipherSpec, q, peerKey)
    ensures MustBeProved(AwaitChangeCipherSpec, q, peerKey) ==> peerKey
    ensures Behind(ReadClientCertificateVerify, p, ccs) == 10 && !ReadsSealed(ReadClientCertificateVerify, p.resumed)
    ensures Behind(AwaitChangeCipherSpec, q, ccs) == 11
  {
  }

  /** How the server is set up: SSL_VERIFY_PEER, SSL_VERIFY_FAIL_IF_NO_PEER_CERT,
      SSL_VERIFY_PEER_IF_NO_OBC, and whether it has a PSK identity hint to give. */
  datatype Config = Config(requestsCertificate: bool, requiresCertificate: bool, exceptChannelId: bool, pskHint: bool)

  /** What is found out on the way: whether the cipher is ECDHE, whether the client offered Channel ID,
      whether the session resumed has the hashes Channel ID needs, whether a stapled response and a ticket
      are to be sent. */
  datatype Choices = Choices(ecdhe: bool, channelId: bool, sessionHashes: bool, status: bool, ticket: bool)

  /** A client certificate is asked for in a full handshake whose cipher authenticates the server with a
      certificate, if the server is set up to ask, and the exception for Channel ID does not apply. */
  predicate Requests(p: Params, k: Config, c: Choices) {
    !p.resumed && p.certAuth && k.requestsCertificate && !(k.exceptChannelId && c.channelId)
  }

  /** ServerKeyExchange goes with ECDHE, and with PSK when there is a hint. */
  predicate SendsParameters(p: Params, k: Config, c: Choices) {
    c.ecdhe || (!p.certAuth && k.pskHint)
  }

  predicate UsesChannelId(p: Params, c: Choices) {
    c.channelId && c.ecdhe && (p.resumed ==> c.sessionHashes)
  }

  /** The flags that are settled before the state are what the set-up and the choices make them. */
  predicate Settled(s: State, p: Params, k: Config, c: Choices, peerKey: bool, serverParams: bool) {
    var rank := Rank(s, p.resumed);
    && (rank <= 16 ==> p.request == Requests(p, k, c))
    && (rank <= 16 ==> p.channelId == if s.SendServerHello? then c.channelId else UsesChannelId(p, c))
    && (rank <= 14 && !p.resumed ==> p.status == (p.certAuth && c.status))
    && (s.SendServerKeyExchange? ==> serverParams == SendsParameters(p, k, c))
    && (rank <= 13 && !p.resumed ==> p.ske == SendsParameters(p, k, c))
    && (rank <= 11 && !p.resumed && p.request && k.requiresCertificate ==> peerKey)
    && (rank <= (if p.resumed then 7 else 1) ==> p.ticket == c.ticket)
  }

  class Server {
    const conn: Connection
    const config: Config
    var state: State
    /** What ssl_run_handshake resolves before the next step. */
    var wait: Wait
    /** The handshake flags: the negotiated parameters as far as they are known. */
    var p: Params
    var chosen: Choices
    var serverParams: bool
    /** peer_pubkey is set: the client sent a certificate. */
    var peerKey: bool
    /** ssl_verify_peer_cert has succeeded, and the CertificateVerify signature was good. */
    var certVerified: bool
    var keyProved: bool
    /** The ChangeCipherSpec waited for has been read. */
    ghost var ccsRead: bool

    /** What holds between steps: the log is the script up to the state's place, everything in it is
        hashed exactly once, and the keys in use are the state's. */
    ghost predicate Inv()
      reads `state, `p, `ccsRead, `certVerified, `keyProved, `peerKey, `chosen, `serverParams, conn
    {
      && conn.Valid() && conn.Hashed() && conn.server
      && Marks(conn.log) == Script(p, Behind(state, p, ccsRead))
      && Fits(state, p, peerKey) && (MustBeVerified(state, p, peerKey) ==> certVerified)
      && (MustBeProved(state, p, peerKey) ==> keyProved)
      && conn.sealedRead == ReadsSealed(state, p.resumed) && conn.sealedWrite == WritesSealed(state, p.resumed)
      && (state.ProcessChangeCipherSpec? && ccsRead ==> conn.ready == 0)
      && (state.SelectCertificate? || state.SelectParameters? ==> HelloAtHand())
      && Settled(state, p, config, chosen, peerKey, serverParams)
    }

    /** The ClientHello has been looked at and not consumed. */
    predicate HelloAtHand()
      reads conn
    {
      conn.ready > 0 && conn.inbox != [] && conn.inbox[0].what.Handshake? && conn.inbox[0].what.msg.kind.ClientHello?
    }

    /** At any moment, even after an error: in a full handshake the Finished of a client that showed a
        certificate has only been accepted once the certificate was verified and the key proved. */
    ghost predicate Safe()
      reads `p, `certVerified, `keyProved, `peerKey, conn
    {
      && conn.Valid() && conn.server
      && (Mark(false, true, Finished) in Marks(conn.log) && !p.resumed && peerKey ==> certVerified && keyProved)
    }

    /** What every step does. An error ends the run; any other way out leaves a state from which the
        handshake goes on, and a step that has to be repeated has done nothing. */
    twostate predicate Stepped(w: Wait)
      reads this, conn
    {
      && (if w.Error? then Safe() else Inv())
      && old(conn.log) <= conn.log && conn.delivered == old(conn.delivered)
      && (w.Ok? ==> Rank(state, p.resumed) < old(Rank(state, p.resumed)))
      && (!w.Error? && state != old(state) ==> Rank(state, p.resumed) < old(Rank(state, p.resumed)))
      && (!w.Error? && state == old(state) ==>
            conn.log == old(conn.log) && conn.transcript == old(conn.transcript) && conn.ready == old(conn.ready) && p == old(p))
      && (!w.Error? ==> (state.ProcessChangeCipherSpec? ==> w.ReadChangeCipherSpec? && !ccsRead))
      && (w.ReadChangeCipherSpec? ==> state.ProcessChangeCipherSpec? && !ccsRead)
      && (w.Flush? || w.ReadChangeCipherSpec? ==> Rank(state, p.resumed) < old(Rank(state, p.resumed)))
      && (w.ReadMessage? || w.ReadHello? ==> conn.ready == 0)
    }

    /** What holds between calls of ssl_run_handshake. */
    ghost predicate Resting()
      reads this, conn
    {
      && (if wait.Error? then Safe() else Inv())
      && (!wait.Error? ==> (state.ProcessChangeCipherSpec? <==> wait.ReadChangeCipherSpec?))
      && (wait.ReadChangeCipherSpec? ==> !ccsRead)
      && (wait.ReadMessage? || wait.ReadHello? ==> conn.ready == 0)
    }

    lemma InvIsSafe()
      requires Inv()
      ensures Safe()
    {
      hide Script, Part, Marks, Connection.Valid, Connection.Hashed;
      if Mark(false, true, Finished) in Marks(conn.log) && !p.resumed {
        ClientFinishedPlace(p, Behind(state, p, ccsRead));
      }
    }

    /** What has not changed the log has not made a server unsafe. */
    twostate lemma StillSafe()
      requires old(Safe()) && conn.Valid() && conn.log == old(conn.log) && unchanged(this)
      ensures Safe()
    {
      hide Marks, Connection.Valid;
    }

    constructor (conn: Connection, config: Config)
      requires conn.Valid() && conn.Hashed() && conn.server && conn.log == []
      requires !conn.sealedRead && !conn.sealedWrite
      ensures Resting() && !wait.Error? && this.conn == conn && this.config == config && state == StartAccept
    {
      this.conn, this.config := conn, config;
      state, wait, p := StartAccept, Ok, NO_PARAMS;
      chosen, serverParams := Choices(false, false, false, false, false), false;
      peerKey, certVerified, keyProved := false, false, false;
      ccsRead := false;
    }

    method DoStartAccept() returns (w: Wait)
      requires Inv() && state == StartAccept
      modifies this
      ensures Stepped(w)
    {
      hide Marks, MarkOf, Script, NextPart, Connection.Valid, Connection.Hashed;
      state := ReadClientHello;
      return Ok;
    }

    /** The ClientHello stays at hand: it is looked at again, and hashed later. */
    method DoReadClientHello() returns (w: Wait)
      requires Inv() && state == ReadClientHello
      modifies this, conn
      ensures Stepped(w)
    {
      hide Marks, MarkOf, Script, NextPart, Connection.Valid, Connection.Hashed;
      InvIsSafe();
      var ms := conn.GetMessage();
      if ms == [] {
        return ReadMessage;
      }
      if !ms[0].kind.ClientHello? {
        return Error;
      }
      if {
        case true =>
        case true => return Error;
        case true => return Pending;
      }
      state := SelectCertificate;
      return Ok;
    }

    /** cert_cb, and the choice of the cipher, which can fail. */
    method DoSelectCertificate() returns (w: Wait)
      requires Inv() && state == SelectCertificate
      modifies this, conn
      ensures Stepped(w)
    {
      hide Marks, MarkOf, Script, NextPart, Connection.Valid, Connection.Hashed;
      InvIsSafe();
      var ms := conn.GetMessage();
      if ms == [] {
        return ReadMessage;
      }
      if {
        case true =>
        case true => return Error;
        case true => return Pending;
      }
      var ecdhe := *;
      chosen := chosen.(ecdhe := ecdhe);
      state := SelectParameters;
      return Ok;
    }

    /** Resume a session or not, ask for a client certificate or not; then hash and consume the ClientHello. */
    method DoSelectParameters() returns (w: Wait)
      requires Inv() && state == SelectParameters
      modifies this, conn
      ensures Stepped(w)
    {
      hide Marks, MarkOf, Script, Part, NextPart, Connection.Valid, Connection.Hashed;
      InvIsSafe();
      var ms := conn.GetMessage();
      if ms == [] {
        return ReadMessage;
      }
      if {
        case true =>
        case true => return Error;
        case true => return Pending;
      }
      var resumed, certAuth, npn, channelId, sessionHashes := *, *, *, *, *;
      var status, ticket := *, *;
      var c := Choices(chosen.ecdhe, channelId, sessionHashes, status, ticket);
      var request := false;
      if !resumed {
        request := config.requestsCertificate;
        if config.exceptChannelId && channelId {
          request := false;
        }
        if !certAuth {
          request := false;
        }
      }
      w := TakeHello(Params(false, resumed, certAuth, false, false, request, false, npn, channelId, false), c);
    }

    /** The ClientHello is hashed and consumed, and the parameters are settled. */
    method TakeHello(q: Params, c: Choices) returns (w: Wait)
      requires Inv() && state == SelectParameters && !q.hvr && (q.resumed ==> !q.request)
      requires Settled(SendServerHello, q, config, c, peerKey, serverParams)
      modifies this, conn
      ensures Stepped(w)
    {
      hide Marks, MarkOf, Script, Part, NextPart, Connection.Valid, Connection.Hashed, Settled, Safe,
           Fits, Behind, Rank, MustBeVerified, MustBeProved, ReadsSealed, WritesSealed;
      InvIsSafe();
      ParametersMove(p, q, peerKey, ccsRead);
      ChosenNext(p, q);
      var ok := conn.Take(true, p, q, 0, ClientHello);
      if !ok {
        StillSafe();
        return Error;
      }
      NoVerifyRequestNext(q);
      p, chosen, state := q, c, SendServerHello;
      return Ok;
    }

    method DoSendServerHello() returns (w: Wait)
      requires Inv() && state == SendServerHello
      modifies this, conn
      ensures Stepped(w)
    {
      hide Marks, MarkOf, Script, Part, NextPart, Connection.Valid, Connection.Hashed;
      if * {
        InvIsSafe();
        return Error;
      }
      var channelId := p.channelId;
      if channelId && !chosen.ecdhe {
        channelId := false;
      }
      if p.resumed && !chosen.sessionHashes {
        channelId := false;
      }
      w := SendHello(channelId);
    }

    /** ServerHello, by which it is settled whether Channel ID is used. */
    method SendHello(channelId: bool) returns (w: Wait)
      requires Inv() && state == SendServerHello && channelId == UsesChannelId(p, chosen)
      modifies this, conn
      ensures Stepped(w)
    {
      hide Marks, MarkOf, Script, Part, NextPart, Connection.Valid, Connection.Hashed, Safe, Moves, Settled, UsesChannelId;
      var body := *;
      ghost var q := p.(channelId := channelId);
      HelloMoves(p, q, peerKey, ccsRead);
      HelloSettles(p, q, config, chosen, peerKey, serverParams);
      HelloNext(p, q);
      ScriptStarts(p, 2);
      conn.Say(true, Kind.ServerHello, body, p, q, 2);
      p := p.(channelId := channelId);
      state := if p.resumed then SendServerFinished else SendServerCertificate;
      return Ok;
    }

    /** Certificate and CertificateStatus. */
    method SendCertificates(sent: bool)
      requires conn.Valid() && conn.Hashed() && conn.server && !conn.sealedWrite && !p.resumed
      requires Marks(conn.log) == Script(p, 3)
      modifies conn`log, conn`transcript
      ensures conn.Valid() && conn.Hashed()
      ensures Marks(conn.log) == Script(p.(status := sent), 5) && old(conn.log) <= conn.log
    {
      hide Marks, MarkOf, Script, NextPart, Connection.Valid, Connection.Hashed;
      var body := *;
      ScriptStarts(p, 3);
      CertificateNext(p);
      conn.Say(p.certAuth, Certificate, body, p, p, 3);
      ScriptStarts(p, 4);
      StatusNext(p, sent);
      conn.Say(sent, CertificateStatus, body, p, p.(status := sent), 4);
    }

    method DoSendServerCertificate() returns (w: Wait)
      requires Inv() && state == SendServerCertificate
      modifies this, conn
      ensures Stepped(w)
    {
      hide Marks, MarkOf, Script, NextPart, Connection.Valid, Connection.Hashed;
      InvIsSafe();
      if * {
        return Error;
      }
      var sent := p.certAuth && chosen.status;
      CertificateMoves(p, p.(status := sent), peerKey, ccsRead);
      SendCertificates(sent);
      if * {
        return Error;
      }
      serverParams := chosen.ecdhe || (!p.certAuth && config.pskHint);
      p, state := p.(status := sent), SendServerKeyExchange;
      return Ok;
    }

    /** The private key may sign, fail, or answer later; nothing has been sent then. */
    method DoSendServerKeyExchange() returns (w: Wait)
      requires Inv() && state == SendServerKeyExchange
      modifies this, conn
      ensures Stepped(w)
    {
      hide Marks, MarkOf, Script, NextPart, Connection.Valid, Connection.Hashed;
      InvIsSafe();
      if serverParams {
        if {
          case true =>
          case true => return Error;
          case true => return Pending;
        }
      }
      w := SendKeyExchange();
    }

    /** ServerKeyExchange, when there is anything to send in it. */
    method SendKeyExchange() returns (w: Wait)
      requires Inv() && state == SendServerKeyExchange
      modifies this, conn
      ensures Stepped(w)
    {
      hide Marks, MarkOf, Script, Part, NextPart, Connection.Valid, Connection.Hashed, Settled, SendsParameters, Safe,
           Fits, Behind, Rank, MustBeVerified, MustBeProved, ReadsSealed, WritesSealed;
      KeyExchangeMoves(p, p.(ske := serverParams), peerKey, ccsRead);
      KeyExchangeSettles(p, config, chosen, peerKey, serverParams);
      var sent, body := serverParams, *;
      ScriptStarts(p, 5);
      KeyExchangeNext(p, sent);
      conn.Say(sent, ServerKeyExchange, body, p, p.(ske := sent), 5);
      serverParams := false;
      p, state := p.(ske := sent), SendServerHelloDone;
      return Ok;
    }

    method DoSendServerHelloDone() returns (w: Wait)
      requires Inv() && state == SendServerHelloDone
      modifies this, conn
      ensures Stepped(w)
    {
      hide Marks, MarkOf, Script, NextPart, Connection.Valid, Connection.Hashed, Settled;
      StaysSettled(state, ReadClientCertificate, p, p, config, chosen, peerKey, serverParams);
      InvIsSafe();
      if * {
        return Error;
      }
      var body := *;
      ScriptStarts(p, 6);
      SamePart(p, 6);
      conn.Say(p.request, CertificateRequest, body, p, p, 6);
      ScriptStarts(p, 7);
      SamePart(p, 7);
      conn.Say(true, ServerHelloDone, [], p, p, 7);
      state := ReadClientCertificate;
      return Flush;
    }

    /** The client has a key exactly when its certificate list is not empty; where a certificate is
        required, an empty list is an error. */
    method DoReadClientCertificate() returns (w: Wait)
      requires Inv() && state == ReadClientCertificate
      modifies this, conn
      ensures Stepped(w)
      ensures w.Ok? && p.request ==>
                old(conn.ready) > 0 && old(conn.inbox) != [] && old(conn.inbox[0]).what.Handshake? &&
                old(conn.inbox[0]).what.msg.kind.Certificate? &&
                peerKey == (old(conn.inbox[0]).what.msg.body != NO_CERTIFICATES) && (config.requiresCertificate ==> peerKey)
      ensures w.Ok? && !p.request ==> !peerKey && conn.log == old(conn.log)
    {
      hide Marks, MarkOf, Script, NextPart, Connection.Valid, Connection.Hashed;
      InvIsSafe();
      var ms := conn.GetMessage();
      if p.request && ms == [] {
        return ReadMessage;
      }
      if p.request && !ms[0].kind.Certificate? {
        return Error;
      }
      SamePart(p, 8);
      var ok := conn.Take(p.request, p, p, 8, Certificate);
      if !ok {
        return Error;
      }
      if p.request {
        var empty := ms[0].body == NO_CERTIFICATES;
        if empty && config.requiresCertificate {
          return Error;
        }
        peerKey := !empty;
      }
      state := VerifyClientCertificate;
      return Ok;
    }

    method DoVerifyClientCertificate() returns (w: Wait)
      requires Inv() && state == VerifyClientCertificate
      modifies this, conn
      ensures Stepped(w)
    {
      hide Marks, MarkOf, Script, NextPart, Connection.Valid, Connection.Hashed;
      InvIsSafe();
      if peerKey {
        if {
          case true => certVerified := true;
          case true => return Error;
          case true => return Pending;
        }
      }
      state := ReadClientKeyExchange;
      return Ok;
    }

    /** Decryption may be answered later; the message is hashed only after it. */
    method DoReadClientKeyExchange() returns (w: Wait)
      requires Inv() && state == ReadClientKeyExchange
      modifies this, conn
      ensures Stepped(w)
    {
      hide Marks, MarkOf, Script, NextPart, Connection.Valid, Connection.Hashed, Settled, Safe;
      StaysSettled(state, ReadClientCertificateVerify, p, p, config, chosen, peerKey, serverParams);
      InvIsSafe();
      var ms := conn.GetMessage();
      if ms == [] {
        return ReadMessage;
      }
      if !ms[0].kind.ClientKeyExchange? {
        return Error;
      }
      if {
        case true =>
        case true => return Error;
        case true => return Pending;
      }
      SamePart(p, 9);
      var ok := conn.Take(true, p, p, 9, ClientKeyExchange);
      if !ok {
        StillSafe();
        return Error;
      }
      state := ReadClientCertificateVerify;
      return Ok;
    }

    /** A client with a certificate has to prove its key. */
    method DoReadClientCertificateVerify() returns (w: Wait)
      requires Inv() && state == ReadClientCertificateVerify
      modifies this, conn
      ensures Stepped(w)
    {
      hide Marks, MarkOf, Script, Part, NextPart, Connection.Valid, Connection.Hashed;
      InvIsSafe();
      var ms := conn.GetMessage();
      if peerKey && ms == [] {
        return ReadMessage;
      }
      if peerKey {
        if !ms[0].kind.CertificateVerify? {
          return Error;
        }
        // the signature is over the transcript before this message
        var good := *;
        if !good {
          return Error;
        }
        keyProved := true;
      }
      w := TakeProof();
    }

    /** CertificateVerify of a client with a key is taken. */
    method TakeProof() returns (w: Wait)
      requires Inv() && state == ReadClientCertificateVerify && (peerKey ==> keyProved)
      requires peerKey ==> conn.ready > 0 && conn.inbox[0].what.Handshake? && conn.inbox[0].what.msg.kind.CertificateVerify?
      modifies this, conn
      ensures Stepped(w)
    {
      hide Marks, MarkOf, Script, Part, NextPart, Connection.Valid, Connection.Hashed, Settled;
      StaysSettled(state, AwaitChangeCipherSpec, p, p.(verify := peerKey), config, chosen, peerKey, serverParams);
      InvIsSafe();
      ProofMoves(p, p.(verify := peerKey), peerKey, ccsRead);
      VerifyNext(p, peerKey);
      var ok := conn.Take(peerKey, p, p.(verify := peerKey), 10, CertificateVerify);
      if !ok {
        return Error;
      }
      p, state := p.(verify := peerKey), AwaitChangeCipherSpec;
      return Ok;
    }

    method DoReadChangeCipherSpec() returns (w: Wait)
      requires Inv() && state == AwaitChangeCipherSpec
      modifies this, conn
      ensures Stepped(w)
    {
      hide Marks, MarkOf, Script, NextPart, Connection.Valid, Connection.Hashed;
      InvIsSafe();
      state, ccsRead := ProcessChangeCipherSpec, false;
      return ReadChangeCipherSpec;
    }

    method DoProcessChangeCipherSpec() returns (w: Wait)
      requires Inv() && state == ProcessChangeCipherSpec && ccsRead
      modifies this, conn
      ensures Stepped(w)
    {
      hide Marks, MarkOf, Script, NextPart, Connection.Valid, Connection.Hashed;
      InvIsSafe();
      if * {
        return Error;
      }
      conn.ChangeReadKeys();
      state := ReadNextProto;
      return Ok;
    }

    method DoReadNextProto() returns (w: Wait)
      requires Inv() && state == ReadNextProto
      modifies this, conn
      ensures Stepped(w)
    {
      hide Marks, MarkOf, Script, NextPart, Connection.Valid, Connection.Hashed, Settled, Safe;
      StaysSettled(state, ReadChannelId, p, p, config, chosen, peerKey, serverParams);
      InvIsSafe();
      var ms := conn.GetMessage();
      if p.npn && ms == [] {
        return ReadMessage;
      }
      if p.npn && !ms[0].kind.NextProto? {
        return Error;
      }
      ghost var k := Behind(state, p, ccsRead);
      SamePart(p, k);
      var ok := conn.Take(p.npn, p, p, k, NextProto);
      if !ok {
        StillSafe();
        return Error;
      }
      state := ReadChannelId;
      return Ok;
    }

    method DoReadChannelId() returns (w: Wait)
      requires Inv() && state == ReadChannelId
      modifies this, conn
      ensures Stepped(w)
    {
      hide Marks, MarkOf, Script, NextPart, Connection.Valid, Connection.Hashed, Settled, Safe;
      StaysSettled(state, ReadClientFinished, p, p, config, chosen, peerKey, serverParams);
      InvIsSafe();
      var ms := conn.GetMessage();
      if p.channelId && ms == [] {
        return ReadMessage;
      }
      if p.channelId && !ms[0].kind.ChannelId? {
        return Error;
      }
      ghost var k := Behind(state, p, ccsRead);
      SamePart(p, k);
      var ok := conn.Take(p.channelId, p, p, k, ChannelId);
      if !ok {
        StillSafe();
        return Error;
      }
      state := ReadClientFinished;
      return Ok;
    }

    method DoReadClientFinished() returns (w: Wait)
      requires Inv() && state == ReadClientFinished
      modifies this, conn
      ensures Stepped(w)
    {
      hide Marks, MarkOf, Script, NextPart, Connection.Valid, Connection.Hashed, Settled, Safe;
      StaysSettled(state, if p.resumed then FinishServerHandshake else SendServerFinished, p, p, config, chosen, peerKey, serverParams);
      InvIsSafe();
      ghost var k, log := Behind(state, p, ccsRead), conn.log;
      ScriptStarts(p, k);
      w := conn.GetFinished();
      if w != Ok {
        StillSafe();
        return;
      }
      Marks1(log, conn.log);
      SamePart(p, k);
      Advance(p, p, k, log, conn.log);
      state := if p.resumed then FinishServerHandshake else SendServerFinished;
      if * {
        InvIsSafe();
        return Error;
      }
    }

    /** NewSessionTicket, ChangeCipherSpec, and Finished under the new keys. */
    method DoSendServerFinished() returns (w: Wait)
      requires Inv() && state == SendServerFinished
      modifies this, conn
      ensures Stepped(w)
    {
      hide Marks, MarkOf, Script, NextPart, Connection.Valid, Connection.Hashed, Settled;
      FinishedSettles(p, config, chosen, peerKey, serverParams);
      InvIsSafe();
      if * {
        return Error;
      }
      SendFinishedFlight(Behind(state, p, ccsRead));
      p := p.(ticket := chosen.ticket);
      state := if p.resumed then AwaitChangeCipherSpec else FinishServerHandshake;
      return Flush;
    }

    method SendFinishedFlight(ghost k: nat)
      requires conn.Valid() && conn.Hashed() && conn.server && !conn.sealedWrite && k == (if p.resumed then 3 else 15)
      requires Marks(conn.log) == Script(p, k)
      modifies conn`log, conn`transcript, conn`sealedWrite
      ensures conn.Valid() && conn.Hashed() && conn.sealedWrite
      ensures Marks(conn.log) == Script(p.(ticket := chosen.ticket), k + 3) && old(conn.log) <= conn.log
    {
      hide Marks, MarkOf, Script, NextPart, Connection.Valid, Connection.Hashed;
      var body := *;
      ScriptStarts(p, k);
      TicketNext(p, chosen.ticket);
      ghost var q := p.(ticket := chosen.ticket);
      conn.Say(chosen.ticket, NewSessionTicket, body, p, q, k);
      ScriptStarts(q, k + 1);
      ghost var log := conn.log;
      conn.AddChangeCipherSpec();
      Marks1(log, conn.log);
      SamePart(q, k + 1);
      Advance(q, q, k + 1, log, conn.log);
      conn.ChangeWriteKeys();
      log := conn.log;
      ScriptStarts(q, k + 2);
      conn.SendFinished();
      Marks1(log, conn.log);
      SamePart(q, k + 2);
      Advance(q, q, k + 2, log, conn.log);
    }

    method DoFinishServerHandshake() returns (w: Wait)
      requires Inv() && state == FinishServerHandshake
      modifies this, conn
      ensures Stepped(w)
    {
      hide Marks, MarkOf, Script, NextPart, Connection.Valid, Connection.Hashed;
      InvIsSafe();
      state := Done;
      return Ok;
    }

    method Step() returns (w: Wait)
      requires Inv() && state != Done && (state.ProcessChangeCipherSpec? ==> ccsRead)
      modifies this, conn
      ensures Stepped(w)
    {
      hide Inv, Stepped;
      match state
      case StartAccept => w := DoStartAccept();
      case ReadClientHello => w := DoReadClientHello();
      case SelectCertificate => w := DoSelectCertificate();
      case SelectParameters => w := DoSelectParameters();
      case SendServerHello => w := DoSendServerHello();
      case SendServerCertificate => w := DoSendServerCertificate();
      case SendServerKeyExchange => w := DoSendServerKeyExchange();
      case SendServerHelloDone => w := DoSendServerHelloDone();
      case ReadClientCertificate => w := DoReadClientCertificate();
      case VerifyClientCertificate => w := DoVerifyClientCertificate();
      case ReadClientKeyExchange => w := DoReadClientKeyExchange();
      case ReadClientCertificateVerify => w := DoReadClientCertificateVerify();
      case AwaitChangeCipherSpec => w := DoReadChangeCipherSpec();
      case ProcessChangeCipherSpec => w := DoProcessChangeCipherSpec();
      case ReadNextProto => w := DoReadNextProto();
      case ReadChannelId => w := DoReadChannelId();
      case ReadClientFinished => w := DoReadClientFinished();
      case SendServerFinished => w := DoSendServerFinished();
      case FinishServerHandshake => w := DoFinishServerHandshake();
    }

    /** ssl_server_handshake: steps until one has to wait. Ok only when the handshake is done. */
    method Handshake() returns (w: Wait)
      requires Inv() && (state.ProcessChangeCipherSpec? ==> ccsRead)
      modifies this, conn
      ensures if w.Error? then Safe() else Inv()
      ensures w.Ok? ==> state == Done
      ensures old(conn.log) <= conn.log && conn.delivered == old(conn.delivered)
      ensures !w.Error? ==> (state.ProcessChangeCipherSpec? <==> w.ReadChangeCipherSpec?) && (w.ReadChangeCipherSpec? ==> !ccsRead)
      ensures w.ReadMessage? || w.ReadHello? ==> conn.ready == 0
      ensures w.Flush? || w.ReadChangeCipherSpec? ==> Rank(state, p.resumed) < old(Rank(state, p.resumed))
      ensures !w.Error? && !w.Ok? ==> Rank(state, p.resumed) < old(Rank(state, p.resumed)) || (state == old(state) && conn.ready == old(conn.ready) && Rank(state, p.resumed) == old(Rank(state, p.resumed)))
    {
      hide Inv, Safe, Connection.Valid;
      w := Ok;
      while state != Done && w.Ok?
        invariant if w.Error? then Safe() else Inv()
        invariant old(conn.log) <= conn.log && conn.delivered == old(conn.delivered)
        invariant w.Ok? ==> (state.ProcessChangeCipherSpec? ==> ccsRead)
        invariant !w.Error? && !w.Ok? ==> (state.ProcessChangeCipherSpec? <==> w.ReadChangeCipherSpec?)
        invariant w.ReadChangeCipherSpec? ==> !ccsRead
        invariant w.ReadMessage? || w.ReadHello? ==> conn.ready == 0
        invariant w.Flush? || w.ReadChangeCipherSpec? ==> Rank(state, p.resumed) < old(Rank(state, p.resumed))
        invariant !w.Error? ==> Rank(state, p.resumed) < old(Rank(state, p.resumed)) || (state == old(state) && conn.ready == old(conn.ready) && Rank(state, p.resumed) == old(Rank(state, p.resumed)))
        decreases if w.Ok? then 1 else 0, Rank(state, p.resumed)
      {
        w := Step();
      }
    }

    /** What the caller of ssl_run_handshake is told: it can call again later, or it is over. */
    method ResolveWait() returns (go: bool)
      requires Resting() && !wait.Error?
      modifies this, conn
      ensures Inv() && state == old(state) && Rank(state, p.resumed) == old(Rank(state, p.resumed))
      ensures old(conn.log) <= conn.log && conn.delivered == old(conn.delivered)
      ensures !go ==> Resting() && !wait.Error?
      ensures old(wait).EarlyReturn? || old(wait).Pending? ==> !go
      ensures go ==> (state.ProcessChangeCipherSpec? ==> ccsRead)
      ensures go ==> (old(wait).ReadMessage? || old(wait).ReadHello? ==> conn.ready > 0)
    {
      hide Marks, MarkOf, Script, NextPart, Connection.Valid, Connection.Hashed, Settled;
      var blocked;
      match wait {
        case Ok => return true;
        case Flush =>
          go := *;
        case ReadMessage | ReadHello =>
          blocked, go := conn.OpenHandshake();
        case ReadChangeCipherSpec =>
          ghost var k, log := Behind(state, p, ccsRead), conn.log;
          blocked, go := conn.OpenChangeCipherSpec();
          if go {
            ccsRead := true;
            Marks1(log, conn.log);
            SamePart(p, k);
            Advance(p, p, k, log, conn.log);
          }
        case EarlyReturn | Pending =>
          wait := Ok;
          return false;
      }
    }

    /** ssl_run_handshake: resolve what the handshake waited for and step on, until it has to return to
        the caller. It ends whatever arrives, and however often it is called again it continues the
        same run. done is true exactly when the handshake has completed. */
    method Run() returns (done: bool)
      requires Resting()
      modifies this, conn
      ensures Resting() && old(conn.log) <= conn.log && conn.delivered == old(conn.delivered)
      ensures done ==> state == Done && !wait.Error?
    {
      hide Inv, Safe, Rank, Connection.Valid;
      if wait.Error? {
        return false;
      }
      while true
        invariant Resting() && !wait.Error?
        invariant old(conn.log) <= conn.log && conn.delivered == old(conn.delivered)
        decreases Rank(state, p.resumed), if wait.EarlyReturn? || wait.Pending? then 0 else if wait.ReadMessage? || wait.ReadHello? then 1 else 2
      {
        var go := ResolveWait();
        if !go {
          return false;
        }
        wait := Handshake();
        if wait.Error? {
          return false;
        }
        if wait.Ok? {
          return true;
        }
      }
    }

    /** A completed handshake: the log is the whole script, its Finished messages carry the MACs of the
        transcripts before them, and both directions are under the new keys. */
    lemma Completed()
      requires Resting() && state == Done && !wait.Error?
      ensures Marks(conn.log) == Script(p, Parts(p)) && FinishedOver(conn.log, conn.mac)
      ensures conn.transcript == TranscriptOf(conn.log) && conn.sealedRead && conn.sealedWrite
      ensures !p.resumed ==> p.verify == peerKey && (p.verify ==> certVerified && keyProved)
      ensures p.request == Requests(p, config, chosen)
    {
      hide Marks, Script;
      ScriptStarts(p, Parts(p));
    }

    /** What a completed full handshake holds follows from the set-up and what was chosen: a client
        certificate has been asked for exactly when the server is set up to ask, on a certificate cipher,
        unless the exception for Channel ID applies; where it was, and one is required, the client's was
        verified and its key proved. */
    lemma CompletedFull()
      requires Resting() && state == Done && !wait.Error? && !p.resumed
      ensures var all := Marks(conn.log);
              && (S(CertificateRequest) in all <==>
                    config.requestsCertificate && S(Certificate) in all && !(config.exceptChannelId && chosen.channelId))
              && (S(CertificateRequest) in all && config.requiresCertificate ==> peerKey)
              && (C(CertificateVerify) in all <==> peerKey) && (peerKey ==> certVerified && keyProved && S(CertificateRequest) in all)
              && (S(CertificateStatus) in all <==> S(Certificate) in all && chosen.status)
              && (S(ServerKeyExchange) in all <==> chosen.ecdhe || (S(Certificate) !in all && config.pskHint))
              && (S(NewSessionTicket) in all <==> chosen.ticket)
              && (Mark(false, true, ChannelId) in all <==> chosen.channelId && chosen.ecdhe)
    {
      hide Marks, Script, Part;
      Completed();
      FullHolds(p);
    }

    /** And a completed resumption. */
    lemma CompletedResumed()
      requires Resting() && state == Done && !wait.Error? && p.resumed
      ensures var all := Marks(conn.log);
              && S(Certificate) !in all && S(CertificateRequest) !in all && C(ClientKeyExchange) !in all
              && (S(NewSessionTicket) in all <==> chosen.ticket)
              && (Mark(false, true, ChannelId) in all <==> chosen.channelId && chosen.ecdhe && chosen.sessionHashes)
    {
      hide Marks, Script, Part;
      Completed();
      ResumedHolds(p);
    }
  }
}
