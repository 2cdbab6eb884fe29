/** The messages of a TLS 1.2 (or older) handshake, the order they come in, and what follows for two
    parties that both keep to it. */
module TlsScript {
  import opened Words
  import opened DtlsWire

  datatype Kind = ClientHello | HelloVerifyRequest | ServerHello | Certificate | CertificateStatus
                | ServerKeyExchange | CertificateRequest | ServerHelloDone | ClientKeyExchange
                | CertificateVerify | NextProto | ChannelId | Finished | NewSessionTicket

  /** v2: an SSLv2-format ClientHello, which the record layer hashes before it is parsed. */
  datatype Msg = Msg(kind: Kind, body: seq<byte>, v2: bool)

  datatype What = ChangeCipherSpec | Handshake(msg: Msg)

  /** Something that crossed the wire: who sent it, and whether under the negotiated keys. */
  datatype Item = Item(fromServer: bool, sealed: bool, what: What)

  /** What a handshake step leaves its caller to wait for; Ok is nothing. */
  datatype Wait = Ok | Error | Flush | ReadMessage | ReadHello | ReadChangeCipherSpec | EarlyReturn | Pending

  /** The body of a Certificate message with this list, and with an empty one. */
  function CertificateBody(list: seq<byte>): seq<byte>
    requires |list| < 0x100_0000
  {
    U24(|list|) + list
  }

  const NO_CERTIFICATES: seq<byte> := [0, 0, 0]

  // ---------- the transcript ----------

  /** What a party that has sent and consumed `log` must have hashed: every message once, in order.
      HelloVerifyRequest is not hashed and resets the transcript (section 4.2.1 of RFC 6347). */
  function TranscriptOf(log: seq<Item>): seq<Msg> {
    if log == [] then []
    else
      var before := TranscriptOf(log[..|log| - 1]);
      match log[|log| - 1].what
      case ChangeCipherSpec => before
      case Handshake(m) => if m.kind.HelloVerifyRequest? then [] else before + [m]
  }

  lemma TranscriptOfSnoc(log: seq<Item>, it: Item)
    ensures TranscriptOf(log + [it]) ==
            match it.what
            case ChangeCipherSpec => TranscriptOf(log)
            case Handshake(m) => if m.kind.HelloVerifyRequest? then [] else TranscriptOf(log) + [m]
  {
    assert (log + [it])[..|log|] == log;
  }

  // ---------- the order of the handshake ----------

  /** What was negotiated or decided in a run, each part known once its place is reached. */
  datatype Params = Params(
    hvr: bool,        // a HelloVerifyRequest was answered
    resumed: bool,    // an earlier session is resumed
    certAuth: bool,   // the cipher authenticates the server with a certificate
    status: bool,     // CertificateStatus is sent
    ske: bool,        // ServerKeyExchange is sent
    request: bool,    // the server asks for a client certificate
    verify: bool,     // the client proves possession of its key
    npn: bool,        // NextProto is sent
    channelId: bool,  // ChannelID is sent
    ticket: bool)     // NewSessionTicket is sent

  const NO_PARAMS := Params(false, false, false, false, false, false, false, false, false, false)

  /** An item without its contents. */
  datatype Mark = Mark(fromServer: bool, sealed: bool, kind: Kind) | MarkCcs(fromServer: bool)

  function MarkOf(it: Item): Mark {
    match it.what
    case ChangeCipherSpec => MarkCcs(it.fromServer)
    case Handshake(m) => Mark(it.fromServer, it.sealed, m.kind)
  }

  function Marks(log: seq<Item>): (m: seq<Mark>)
    ensures |m| == |log|
  {
    seq(|log|, i requires 0 <= i < |log| => MarkOf(log[i]))
  }

  function C(k: Kind): Mark { Mark(false, false, k) }
  function S(k: Kind): Mark { Mark(true, false, k) }

  function When(b: bool, m: Mark): seq<Mark> {
    if b then [m] else []
  }

  /** The k-th part of the message flow of section 7.3 of RFC 5246, with the extensions this stack
      knows. A resumed handshake changes the server's keys first. */
  function Part(p: Params, k: nat): seq<Mark> {
    if k == 0 then [C(ClientHello)]
    else if k == 1 then (if p.hvr then [S(HelloVerifyRequest), C(ClientHello)] else [])
    else if k == 2 then [S(ServerHello)]
    else if p.resumed then
      match k
      case 3 => When(p.ticket, S(NewSessionTicket))
      case 4 => [MarkCcs(true)]
      case 5 => [Mark(true, true, Finished)]
      case 6 => [MarkCcs(false)]
      case 7 => When(p.npn, Mark(false, true, NextProto))
      case 8 => When(p.channelId, Mark(false, true, ChannelId))
      case 9 => [Mark(false, true, Finished)]
      case _ => []
    else
      match k
      case 3 => When(p.certAuth, S(Certificate))
      case 4 => When(p.status, S(CertificateStatus))
      case 5 => When(p.ske, S(ServerKeyExchange))
      case 6 => When(p.request, S(CertificateRequest))
      case 7 => [S(ServerHelloDone)]
      case 8 => When(p.request, C(Certificate))
      case 9 => [C(ClientKeyExchange)]
      case 10 => When(p.verify, C(CertificateVerify))
      case 11 => [MarkCcs(false)]
      case 12 => When(p.npn, Mark(false, true, NextProto))
      case 13 => When(p.channelId, Mark(false, true, ChannelId))
      case 14 => [Mark(false, true, Finished)]
      case 15 => When(p.ticket, S(NewSessionTicket))
      case 16 => [MarkCcs(true)]
      case 17 => [Mark(true, true, Finished)]
      case _ => []
  }

  /** The first k parts. */
  function Script(p: Params, k: nat): seq<Mark> {
    if k == 0 then [] else Script(p, k - 1) + Part(p, k - 1)
  }

  /** The number of parts of a whole handshake. */
  function Parts(p: Params): nat {
    if p.resumed then 10 else 18
  }

  /** Parameters that are fixed later do not change what has happened. */
  lemma {:induction false} ScriptSame(p: Params, q: Params, k: nat)
    requires forall j: nat :: j < k ==> Part(p, j) == Part(q, j)
    ensures Script(p, k) == Script(q, k)
  {
    if k > 0 {
      ScriptSame(p, q, k - 1);
    }
  }

  /** The parts before the k-th are the same with p and with q. */
  ghost predicate SameBefore(p: Params, q: Params, k: nat) {
    forall j: nat :: j < k ==> Part(p, j) == Part(q, j)
  }

  /** With q, which agrees with p on the parts before the k-th, that part is `part`. */
  ghost predicate NextPart(p: Params, q: Params, k: nat, part: seq<Mark>) {
    SameBefore(p, q, k) && Part(q, k) == part
  }

  /** Once part k has happened, the log is the script up to part k + 1. */
  lemma Advance(p: Params, q: Params, k: nat, log: seq<Item>, after: seq<Item>)
    requires log <= after && Marks(log) == Script(p, k)
    requires NextPart(p, q, k, Marks(after[|log|..]))
    ensures Marks(after) == Script(q, k + 1)
  {
    hide MarkOf, Part;
    ScriptSame(p, q, k);
    assert Marks(after) == Marks(log) + Marks(after[|log|..]);
  }

  lemma Marks1(log: seq<Item>, after: seq<Item>)
    requires |after| == |log| + 1
    ensures Marks(after[|log|..]) == [MarkOf(after[|log|])]
  {
  }

  lemma Marks2(log: seq<Item>, after: seq<Item>)
    requires |after| == |log| + 2
    ensures Marks(after[|log|..]) == [MarkOf(after[|log|]), MarkOf(after[|log| + 1])]
  {
  }

  lemma SamePart(p: Params, k: nat)
    ensures NextPart(p, p, k, Part(p, k))
  {
  }

  lemma HelloNext(p: Params, q: Params)
    requires q.hvr == p.hvr
    ensures NextPart(p, q, 2, [S(ServerHello)])
  {
  }

  lemma VerifyRequestNext(p: Params)
    ensures NextPart(p, p.(hvr := true), 1, [S(HelloVerifyRequest), C(ClientHello)])
  {
  }

  lemma CertificateNext(p: Params)
    requires !p.resumed
    ensures NextPart(p, p, 3, When(p.certAuth, S(Certificate)))
  {
  }

  /** A part of the server's flight depends on its own flag only. */
  lemma PartSame(p: Params, q: Params, j: nat)
    requires !p.resumed && !q.resumed && p.hvr == q.hvr && p.certAuth == q.certAuth && j < 6
    requires (j == 4 ==> p.status == q.status) && (j == 5 ==> p.ske == q.ske)
    ensures Part(p, j) == Part(q, j)
  {
  }

  lemma StatusNext(p: Params, sent: bool)
    requires !p.resumed
    ensures NextPart(p, p.(status := sent), 4, When(sent, S(CertificateStatus)))
  {
    var q := p.(status := sent);
    forall j: nat | j < 4
      ensures Part(p, j) == Part(q, j)
    {
      PartSame(p, q, j);
    }
  }

  lemma KeyExchangeNext(p: Params, sent: bool)
    requires !p.resumed
    ensures NextPart(p, p.(ske := sent), 5, When(sent, S(ServerKeyExchange)))
  {
    var q := p.(ske := sent);
    forall j: nat | j < 5
      ensures Part(p, j) == Part(q, j)
    {
      PartSame(p, q, j);
    }
  }

  lemma RequestNext(p: Params, sent: bool)
    requires !p.resumed
    ensures NextPart(p, p.(request := sent), 6, When(sent, S(CertificateRequest)))
  {
    var q := p.(request := sent);
    forall j: nat | j < 6
      ensures Part(p, j) == Part(q, j)
    {
      PartSame(p, q, j);
    }
  }

  lemma NoVerifyRequestNext(p: Params)
    requires !p.hvr
    ensures Script(p, 2) == Script(p, 1)
  {
  }

  lemma ChosenNext(p: Params, q: Params)
    requires q.hvr == p.hvr
    ensures NextPart(p, q, 0, [C(ClientHello)])
  {
  }

  lemma VerifyNext(p: Params, sent: bool)
    requires !p.resumed
    ensures NextPart(p, p.(verify := sent), 10, When(sent, C(CertificateVerify)))
  {
  }

  lemma TicketNext(p: Params, sent: bool)
    ensures NextPart(p, p.(ticket := sent), if p.resumed then 3 else 15, When(sent, S(NewSessionTicket)))
  {
  }

  lemma {:induction false} ScriptStarts(p: Params, k: nat)
    requires k > 0
    ensures Script(p, k) != []
  {
    if k > 1 {
      ScriptStarts(p, k - 1);
    }
  }

  /** Where the client's key exchange stands. */
  lemma {:induction false} KeyExchangePlace(p: Params, k: nat)
    requires C(ClientKeyExchange) in Script(p, k)
    ensures !p.resumed && k >= 10
  {
    if k > 0 && C(ClientKeyExchange) in Script(p, k - 1) {
      KeyExchangePlace(p, k - 1);
    }
  }

  /** Where the client's Finished stands in a full handshake. */
  lemma {:induction false} ClientFinishedPlace(p: Params, k: nat)
    requires Mark(false, true, Finished) in Script(p, k) && !p.resumed
    ensures k >= 15
  {
    if k > 0 && Mark(false, true, Finished) in Script(p, k - 1) {
      ClientFinishedPlace(p, k - 1);
    }
  }

  // ---------- Finished ----------

  /** Where part k begins. */
  function Place(p: Params, k: nat): nat {
    |Script(p, k)|
  }

  lemma {:induction false} ScriptGrows(p: Params, j: nat, k: nat)
    requires j <= k
    ensures Script(p, j) <= Script(p, k)
    decreases k
  {
    hide Part;
    if j < k {
      ScriptGrows(p, j, k - 1);
    }
  }

  lemma {:induction false} InPart(p: Params, n: nat, i: nat) returns (k: nat)
    requires i < Place(p, n)
    ensures k < n && Place(p, k) <= i < Place(p, k + 1) && Script(p, n)[i] == Part(p, k)[i - Place(p, k)]
    decreases n
  {
    hide Part;
    if i < Place(p, n - 1) {
      k := InPart(p, n - 1, i);
    } else {
      k := n - 1;
    }
  }

  lemma PartAt(p: Params, n: nat, k: nat, m: Mark)
    requires k < n && Part(p, k) == [m]
    ensures Place(p, k) < Place(p, n) && Script(p, n)[Place(p, k)] == m
  {
    hide Part;
    ScriptGrows(p, k + 1, n);
  }

  /** The part in which a side changes keys, and the one with its Finished. */
  function CcsPart(p: Params, server: bool): nat {
    if server then (if p.resumed then 4 else 16) else (if p.resumed then 6 else 11)
  }

  function FinishedPart(p: Params, server: bool): nat {
    if server then (if p.resumed then 5 else 17) else (if p.resumed then 9 else 14)
  }

  lemma FinishedParts(p: Params, server: bool)
    ensures Part(p, CcsPart(p, server)) == [MarkCcs(server)]
    ensures Part(p, FinishedPart(p, server)) == [Mark(server, true, Finished)]
  {
  }

  lemma OnlyFinishedPart(p: Params, server: bool, k: nat, m: Mark)
    requires k < Parts(p) && m in Part(p, k) && m.Mark? && m.kind.Finished? && m.fromServer == server
    ensures k == FinishedPart(p, server)
  {
  }

  /** A whole handshake holds each side's Finished exactly once, under the new keys and after that
      side's ChangeCipherSpec; the server's comes first when a session is resumed, the client's
      otherwise (section 7.3 of RFC 5246). */
  lemma FinishedOnceInOrder(p: Params, server: bool)
    ensures var all := Script(p, Parts(p));
            var fin, ccs := Place(p, FinishedPart(p, server)), Place(p, CcsPart(p, server));
            && ccs < fin < |all| && all[ccs] == MarkCcs(server) && all[fin] == Mark(server, true, Finished)
            && (forall i :: 0 <= i < |all| && all[i].Mark? && all[i].kind.Finished? && all[i].fromServer == server ==> i == fin)
    ensures Place(p, FinishedPart(p, p.resumed)) < Place(p, CcsPart(p, !p.resumed))
  {
    hide Part, Script;
    var n, c, f := Parts(p), CcsPart(p, server), FinishedPart(p, server);
    FinishedParts(p, server);
    PartAt(p, n, c, MarkCcs(server));
    PartAt(p, n, f, Mark(server, true, Finished));
    PartAt(p, f, c, MarkCcs(server));
    var all := Script(p, n);
    forall i | 0 <= i < |all| && all[i].Mark? && all[i].kind.Finished? && all[i].fromServer == server
      ensures i == Place(p, f)
    {
      var k := InPart(p, n, i);
      PartLength(p, k);
      assert Part(p, k)[i - Place(p, k)] == all[i];
      OnlyFinishedPart(p, server, k, all[i]);
    }
    FinishedParts(p, p.resumed);
    PartAt(p, CcsPart(p, !p.resumed), FinishedPart(p, p.resumed), Mark(p.resumed, true, Finished));
  }

  /** The part that may hold an optional message; a resumed handshake has no part for most. */
  function HomePart(resumed: bool, m: Mark): nat {
    match m
    case MarkCcs(_) => 0
    case Mark(fromServer, sealed, kind) =>
      match kind
      case Certificate => if fromServer then 3 else 8
      case CertificateStatus => 4
      case ServerKeyExchange => 5
      case CertificateRequest => 6
      case ClientKeyExchange => 9
      case CertificateVerify => 10
      case ChannelId => if resumed then 8 else 13
      case NewSessionTicket => if resumed then 3 else 15
      case _ => 0
  }

  predicate Optional(m: Mark) {
    match m
    case MarkCcs(_) => false
    case Mark(fromServer, sealed, kind) =>
      match kind
      case Certificate => !sealed
      case CertificateStatus | ServerKeyExchange | CertificateRequest | NewSessionTicket => fromServer && !sealed
      case ClientKeyExchange | CertificateVerify => !fromServer && !sealed
      case ChannelId => !fromServer && sealed
      case _ => false
  }

  lemma OnlyHome(p: Params, m: Mark, k: nat)
    requires Optional(m) && m in Part(p, k)
    ensures k == HomePart(p.resumed, m)
  {
    assert Part(p, k) == [m];
    if p.resumed {
      ResumedHome(p, m, k);
    } else if k < 9 {
      ServerHome(p, m, k);
    } else {
      ClientHome(p, m, k);
    }
  }

  lemma ResumedHome(p: Params, m: Mark, k: nat)
    requires Optional(m) && p.resumed && Part(p, k) == [m]
    ensures k == HomePart(p.resumed, m)
  {
  }

  lemma ServerHome(p: Params, m: Mark, k: nat)
    requires Optional(m) && !p.resumed && k < 9 && Part(p, k) == [m]
    ensures k == HomePart(p.resumed, m)
  {
  }

  lemma ClientHome(p: Params, m: Mark, k: nat)
    requires Optional(m) && !p.resumed && k >= 9 && Part(p, k) == [m]
    ensures k == HomePart(p.resumed, m)
  {
  }

  /** A whole handshake holds an optional message exactly when the part for it does. */
  lemma OnlyIn(p: Params, m: Mark)
    requires Optional(m)
    ensures m in Script(p, Parts(p)) <==> HomePart(p.resumed, m) < Parts(p) && m in Part(p, HomePart(p.resumed, m))
  {
    var n, k := Parts(p), HomePart(p.resumed, m);
    if k < n && m in Part(p, k) {
      PartIsOne(p, m);
      hide Part;
      PartAt(p, n, k, m);
    }
    if m in Script(p, n) {
      hide Part;
      var i :| 0 <= i < |Script(p, n)| && Script(p, n)[i] == m;
      var j := InPart(p, n, i);
      PartLength(p, j);
      OnlyHome(p, m, j);
    }
  }

  lemma PartIsOne(p: Params, m: Mark)
    requires Optional(m) && m in Part(p, HomePart(p.resumed, m))
    ensures Part(p, HomePart(p.resumed, m)) == [m]
  {
  }

  /** Which of the messages that may be left out a whole full handshake holds. */
  lemma FullHolds(p: Params)
    requires !p.resumed
    ensures var all := Script(p, Parts(p));
            && (S(Certificate) in all <==> p.certAuth) && (S(CertificateStatus) in all <==> p.status)
            && (S(ServerKeyExchange) in all <==> p.ske) && (S(CertificateRequest) in all <==> p.request)
            && (C(Certificate) in all <==> p.request) && (C(CertificateVerify) in all <==> p.verify)
            && (S(NewSessionTicket) in all <==> p.ticket) && (Mark(false, true, ChannelId) in all <==> p.channelId)
            && C(ClientKeyExchange) in all
  {
    hide Script;
    OnlyIn(p, S(Certificate));
    OnlyIn(p, S(CertificateStatus));
    OnlyIn(p, S(ServerKeyExchange));
    OnlyIn(p, S(CertificateRequest));
    OnlyIn(p, C(Certificate));
    OnlyIn(p, C(ClientKeyExchange));
    OnlyIn(p, C(CertificateVerify));
    OnlyIn(p, Mark(false, true, ChannelId));
    OnlyIn(p, S(NewSessionTicket));
  }

  /** A resumed one has no certificates and no key exchange. */
  lemma ResumedHolds(p: Params)
    requires p.resumed
    ensures var all := Script(p, Parts(p));
            && (S(NewSessionTicket) in all <==> p.ticket) && (Mark(false, true, ChannelId) in all <==> p.channelId)
            && S(Certificate) !in all && S(CertificateRequest) !in all && S(ServerKeyExchange) !in all
            && C(Certificate) !in all && C(ClientKeyExchange) !in all && C(CertificateVerify) !in all
  {
    hide Script;
    OnlyIn(p, S(NewSessionTicket));
    OnlyIn(p, Mark(false, true, ChannelId));
    OnlyIn(p, S(Certificate));
    OnlyIn(p, S(CertificateRequest));
    OnlyIn(p, S(ServerKeyExchange));
    OnlyIn(p, C(Certificate));
    OnlyIn(p, C(ClientKeyExchange));
    OnlyIn(p, C(CertificateVerify));
  }

  lemma PartLength(p: Params, k: nat)
    ensures Place(p, k + 1) == Place(p, k) + |Part(p, k)|
  {
    hide Part;
  }

  // ---------- whose turn it is ----------

  datatype Turn = Client | Server | Nobody

  predicate HasFinished(marks: seq<Mark>, fromServer: bool) {
    Mark(fromServer, true, Finished) in marks
  }

  /** Who speaks after mark m, given whose Finished have been seen. */
  function NextTurn(m: Mark, clientDone: bool, serverDone: bool): Turn {
    match m
    case MarkCcs(fromServer) => if fromServer then Server else Client
    case Mark(fromServer, _, kind) =>
      if kind.Finished? && clientDone && serverDone then Nobody
      else if kind.Finished? then (if fromServer then Client else Server)
      else if kind.ClientHello? then Server
      else if kind.HelloVerifyRequest? || kind.ServerHelloDone? then Client
      else if fromServer then Server
      else Client
  }

  /** Who speaks next, as anyone who has seen the marks so far can tell. */
  function TurnAfter(marks: seq<Mark>): Turn {
    if marks == [] then Client
    else NextTurn(marks[|marks| - 1], HasFinished(marks, false), HasFinished(marks, true))
  }

  /** Everything in the log came from the party whose turn it was. */
  ghost predicate InTurn(marks: seq<Mark>) {
    forall k :: 0 <= k < |marks| ==> TurnAfter(marks[..k]) == if marks[k].fromServer then Server else Client
  }

  lemma InTurnSnoc(marks: seq<Mark>, m: Mark)
    requires InTurn(marks) && TurnAfter(marks) == if m.fromServer then Server else Client
    ensures InTurn(marks + [m])
  {
    hide TurnAfter;
    var all := marks + [m];
    forall k | 0 <= k < |all|
      ensures TurnAfter(all[..k]) == if all[k].fromServer then Server else Client
    {
      if k < |marks| {
        assert all[..k] == marks[..k];
      } else {
        assert all[..k] == marks;
      }
    }
  }

  /** Whose turn it is after k parts of a script. */
  function Speaker(p: Params, k: nat): Turn {
    if k == 0 then Client
    else if p.resumed then (if k < 6 then Server else if k < 10 then Client else Nobody)
    else if k < 8 then Server
    else if k < 15 then Client
    else if k < 18 then Server
    else Nobody
  }

  lemma HasFinishedSnoc(marks: seq<Mark>, m: Mark, fromServer: bool)
    ensures HasFinished(marks + [m], fromServer) <==> HasFinished(marks, fromServer) || m == Mark(fromServer, true, Finished)
  {
  }

  /** Every script is spoken in turn. */
  lemma {:induction false} ScriptInTurn(p: Params, k: nat)
    requires k <= Parts(p)
    ensures Spoken(p, k, Script(p, k))
    decreases k
  {
    hide Part, Spoken;
    if k == 0 {
      NothingSaid(p);
    } else {
      ScriptInTurn(p, k - 1);
      PartSpoken(p, k - 1, Script(p, k - 1));
    }
  }

  /** The marks are in turn and leave off where k parts of a script do. */
  ghost predicate Spoken(p: Params, k: nat, marks: seq<Mark>) {
    && InTurn(marks) && TurnAfter(marks) == Speaker(p, k)
    && HasFinished(marks, false) == DoneBy(p, k, false) && HasFinished(marks, true) == DoneBy(p, k, true)
  }

  lemma NothingSaid(p: Params)
    ensures Spoken(p, 0, [])
  {
  }

  /** The server's, or the client's, Finished is in part k - 1 or before. */
  predicate DoneBy(p: Params, k: nat, server: bool) {
    k >= if server then (if p.resumed then 6 else 18) else (if p.resumed then 10 else 15)
  }

  /** The mark is the speaker's and hands over to the next part's speaker. */
  predicate Continues(p: Params, k: nat, m: Mark) {
    && Speaker(p, k) == (if m.fromServer then Server else Client)
    && NextTurn(m, DoneBy(p, k + 1, false), DoneBy(p, k + 1, true)) == Speaker(p, k + 1)
    && DoneBy(p, k + 1, false) == (DoneBy(p, k, false) || m == Mark(false, true, Finished))
    && DoneBy(p, k + 1, true) == (DoneBy(p, k, true) || m == Mark(true, true, Finished))
  }

  predicate PartFits(p: Params, k: nat, part: seq<Mark>) {
    || (part == [] && Speaker(p, k) == Speaker(p, k + 1) && DoneBy(p, k + 1, false) == DoneBy(p, k, false)
        && DoneBy(p, k + 1, true) == DoneBy(p, k, true))
    || (|part| == 1 && Continues(p, k, part[0]))
    || (k == 1 && part == [S(HelloVerifyRequest), C(ClientHello)])
  }

  lemma PartFitsResumed(p: Params, k: nat)
    requires 3 <= k < 10 && p.resumed
    ensures PartFits(p, k, Part(p, k))
  {
  }

  lemma PartFitsFull(p: Params, k: nat)
    requires 3 <= k < 11 && !p.resumed
    ensures PartFits(p, k, Part(p, k))
  {
  }

  lemma PartFitsFinish(p: Params, k: nat)
    requires 11 <= k < 18 && !p.resumed
    ensures PartFits(p, k, Part(p, k))
  {
  }

  lemma PartFitsAll(p: Params, k: nat)
    requires k < Parts(p)
    ensures PartFits(p, k, Part(p, k))
  {
    if k >= 3 {
      if p.resumed {
        PartFitsResumed(p, k);
      } else if k < 11 {
        PartFitsFull(p, k);
      } else {
        PartFitsFinish(p, k);
      }
    }
  }

  lemma HelloTurns(p: Params)
    ensures Speaker(p, 1) == Speaker(p, 2) == Server
    ensures forall k: nat, server :: k <= 2 ==> !DoneBy(p, k, server)
    ensures NextTurn(S(HelloVerifyRequest), false, false) == Client && NextTurn(C(ClientHello), false, false) == Server
  {
  }

  lemma PartSpoken(p: Params, k: nat, before: seq<Mark>)
    requires k < Parts(p) && Spoken(p, k, before)
    ensures Spoken(p, k + 1, before + Part(p, k))
  {
    hide InTurn, HasFinished, TurnAfter, Part, DoneBy, Speaker, NextTurn;
    PartFitsAll(p, k);
    HelloTurns(p);
    var part := Part(p, k);
    if part == [] {
      assert before + part == before;
    } else if |part| == 1 {
      OneSaid(before, part[0]);
      assert part == [part[0]];
    } else {
      OneSaid(before, part[0]);
      OneSaid(before + [part[0]], part[1]);
      assert before + part == before + [part[0]] + [part[1]];
    }
  }

  lemma OneSaid(before: seq<Mark>, m: Mark)
    requires InTurn(before) && TurnAfter(before) == if m.fromServer then Server else Client
    ensures var after := before + [m];
            && InTurn(after) && TurnAfter(after) == NextTurn(m, HasFinished(after, false), HasFinished(after, true))
            && (HasFinished(after, true) <==> HasFinished(before, true) || m == Mark(true, true, Finished))
            && (HasFinished(after, false) <==> HasFinished(before, false) || m == Mark(false, true, Finished))
  {
    InTurnSnoc(before, m);
    HasFinishedSnoc(before, m, true);
    HasFinishedSnoc(before, m, false);
  }

  // ---------- two parties ----------

  /** The items one side sent, in order. */
  function From(log: seq<Item>, server: bool): seq<Item> {
    if log == [] then []
    else
      var before := From(log[..|log| - 1], server);
      if log[|log| - 1].fromServer == server then before + [log[|log| - 1]] else before
  }

  lemma FromSnoc(log: seq<Item>, it: Item, server: bool)
    ensures From(log + [it], server) == if it.fromServer == server then From(log, server) + [it] else From(log, server)
  {
    assert (log + [it])[..|log|] == log;
  }

  lemma {:induction false} FromAt(log: seq<Item>, k: nat, server: bool)
    requires k < |log| && log[k].fromServer == server
    ensures |From(log[..k], server)| < |From(log, server)|
    ensures From(log, server)[|From(log[..k], server)|] == log[k]
    decreases |log|
  {
    var last := |log| - 1;
    if k < last {
      assert log[..last][..k] == log[..k] && log[..last][k] == log[k];
      FromAt(log[..last], k, server);
    }
  }

  /** Each party has consumed a prefix of what the other has sent. */
  predicate Fifo(client: seq<Item>, server: seq<Item>) {
    From(server, false) <= From(client, false) && From(client, true) <= From(server, true)
  }

  /** Two parties that keep to their turns over FIFO channels have the same history, as far as both
      have got. */
  lemma {:induction false} SameHistory(client: seq<Item>, server: seq<Item>, k: nat)
    requires InTurn(Marks(client)) && InTurn(Marks(server)) && Fifo(client, server)
    requires k <= |client| && k <= |server|
    ensures client[..k] == server[..k]
    decreases k
  {
    hide TurnAfter, MarkOf;
    if k > 0 {
      var i := k - 1;
      SameHistory(client, server, i);
      assert Marks(client)[..i] == Marks(client[..i]) && Marks(server)[..i] == Marks(server[..i]);
      MarkSender(client[i]);
      MarkSender(server[i]);
      assert Marks(client)[i] == MarkOf(client[i]) && Marks(server)[i] == MarkOf(server[i]);
      var d := client[i].fromServer;
      assert server[i].fromServer == d;
      FromAt(client, i, d);
      FromAt(server, i, d);
      assert client[i] == server[i];
      assert client[..k] == client[..i] + [client[i]] && server[..k] == server[..i] + [server[i]];
    }
  }

  lemma MarkSender(it: Item)
    ensures MarkOf(it).fromServer == it.fromServer
  {
  }

  lemma {:induction false} FromGrows(log: seq<Item>, k: nat, server: bool)
    requires k <= |log|
    ensures |From(log[..k], server)| <= |From(log, server)|
    decreases |log|
  {
    if k < |log| {
      assert log[..|log| - 1][..k] == log[..k];
      FromGrows(log[..|log| - 1], k, server);
    } else {
      assert log[..k] == log;
    }
  }

  /** What the server consumed at position j, the client sent at position j, after the same history;
      so both hashed the same messages before it. */
  lemma ClientItemsAgree(client: seq<Item>, server: seq<Item>, j: nat)
    requires InTurn(Marks(client)) && InTurn(Marks(server)) && Fifo(client, server)
    requires j < |server| && !server[j].fromServer
    ensures j < |client| && client[j] == server[j] && client[..j] == server[..j]
    ensures TranscriptOf(client[..j]) == TranscriptOf(server[..j])
  {
    hide InTurn;
    if |client| <= j {
      SameHistory(client, server, |client|);
      assert client == client[..|client|];
      assert server[..j][..|client|] == server[..|client|];
      FromGrows(server[..j], |client|, false);
      FromAt(server, j, false);
      assert false;
    } else {
      SameHistory(client, server, j + 1);
      assert client[..j] == client[..j + 1][..j] && server[..j] == server[..j + 1][..j];
      assert client[..j + 1][j] == server[..j + 1][j];
    }
  }

  /** And the other way round. */
  lemma ServerItemsAgree(client: seq<Item>, server: seq<Item>, j: nat)
    requires InTurn(Marks(client)) && InTurn(Marks(server)) && Fifo(client, server)
    requires j < |client| && client[j].fromServer
    ensures j < |server| && client[j] == server[j] && client[..j] == server[..j]
    ensures TranscriptOf(client[..j]) == TranscriptOf(server[..j])
  {
    hide InTurn;
    if |server| <= j {
      SameHistory(client, server, |server|);
      assert server == server[..|server|];
      assert client[..j][..|server|] == client[..|server|];
      FromGrows(client[..j], |server|, true);
      FromAt(client, j, true);
      assert false;
    } else {
      SameHistory(client, server, j + 1);
      assert client[..j] == client[..j + 1][..j] && server[..j] == server[..j + 1][..j];
      assert client[..j + 1][j] == server[..j + 1][j];
    }
  }
}
