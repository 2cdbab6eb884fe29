/** The two state machines against each other, over channels that deliver in order whatever they
    deliver: both compute and check each Finished over the same messages. */
module TlsAgreement {
  import opened Words
  import opened TlsScript
  import opened TlsConnection
  import opened TlsClient
  import opened TlsServer

  /** Each side has received a prefix of what the other has sent. */
  ghost predicate InOrder(c: Client, s: Server)
    reads c.conn, s.conn
  {
    c.conn.delivered <= From(s.conn.log, true) && s.conn.delivered <= From(c.conn.log, false)
  }

  ghost predicate Running(c: Client, s: Server)
    reads c, c.conn, s, s.conn
  {
    c.Resting() && !c.wait.Error? && s.Resting() && !s.wait.Error? && InOrder(c, s)
  }

  lemma ClientInTurn(c: Client)
    requires c.Inv()
    ensures InTurn(Marks(c.conn.log)) && From(c.conn.log, true) <= c.conn.delivered
    ensures c.state.Done? ==> TurnAfter(Marks(c.conn.log)) == Nobody
  {
    hide InTurn, TurnAfter, Marks, Script, From, FinishedOver;
    ScriptInTurn(c.p, TlsClient.Behind(c.state, c.p, c.ccsRead));
  }

  lemma ServerInTurn(s: Server)
    requires s.Inv()
    ensures InTurn(Marks(s.conn.log)) && From(s.conn.log, false) <= s.conn.delivered
    ensures s.state.Done? ==> TurnAfter(Marks(s.conn.log)) == Nobody
  {
    hide InTurn, TurnAfter, Marks, Script, From, FinishedOver;
    ScriptInTurn(s.p, TlsServer.Behind(s.state, s.p, s.ccsRead));
  }

  lemma BothInTurn(c: Client, s: Server)
    requires Running(c, s)
    ensures InTurn(Marks(c.conn.log)) && InTurn(Marks(s.conn.log)) && Fifo(c.conn.log, s.conn.log)
    ensures FinishedOver(c.conn.log, c.conn.mac) && FinishedOver(s.conn.log, s.conn.mac)
  {
    hide InTurn, Marks, Script, From, FinishedOver;
    ClientInTurn(c);
    ServerInTurn(s);
  }

  predicate IsFinished(it: Item, server: bool) {
    it.fromServer == server && it.what.Handshake? && it.what.msg.kind.Finished?
  }

  /** The Finished the server checked is the one the client made: at the same place, over the same
      transcript. */
  lemma ClientFinishedAgrees(c: Client, s: Server, j: nat)
    requires Running(c, s) && j < |s.conn.log| && IsFinished(s.conn.log[j], false)
    ensures j < |c.conn.log| && c.conn.log[j] == s.conn.log[j]
    ensures var t := TranscriptOf(c.conn.log[..j]);
            t == TranscriptOf(s.conn.log[..j])
            && s.conn.log[j].what.msg.body == c.conn.mac(t, false) == s.conn.mac(t, false)
  {
    hide InTurn, Marks, From, TranscriptOf, Client.Resting, Server.Resting;
    BothInTurn(c, s);
    ClientItemsAgree(c.conn.log, s.conn.log, j);
  }

  /** And the Finished the client checked is the one the server made. */
  lemma ServerFinishedAgrees(c: Client, s: Server, j: nat)
    requires Running(c, s) && j < |c.conn.log| && IsFinished(c.conn.log[j], true)
    ensures j < |s.conn.log| && s.conn.log[j] == c.conn.log[j]
    ensures var t := TranscriptOf(s.conn.log[..j]);
            t == TranscriptOf(c.conn.log[..j])
            && c.conn.log[j].what.msg.body == c.conn.mac(t, true) == s.conn.mac(t, true)
  {
    hide InTurn, Marks, From, TranscriptOf, Client.Resting, Server.Resting;
    BothInTurn(c, s);
    ServerItemsAgree(c.conn.log, s.conn.log, j);
  }

  lemma NobodyEnds(a: seq<Item>, b: seq<Item>)
    requires a <= b && TurnAfter(Marks(a)) == Nobody && InTurn(Marks(b))
    ensures a == b
  {
    hide TurnAfter, MarkOf;
    assert Marks(b)[..|a|] == Marks(a);
  }

  /** When both have completed, they have the same history, message for message, and so the same
      transcript; nothing about their negotiated parameters has to be assumed. */
  lemma CompletedAlike(c: Client, s: Server)
    requires Running(c, s) && c.state.Done? && s.state.Done?
    ensures c.conn.log == s.conn.log && c.conn.transcript == s.conn.transcript
  {
    hide InTurn, Marks, From, TranscriptOf, TurnAfter, FinishedOver;
    BothInTurn(c, s);
    ClientInTurn(c);
    ServerInTurn(s);
    var a, b := c.conn.log, s.conn.log;
    var n := if |a| < |b| then |a| else |b|;
    SameHistory(a, b, n);
    if |a| <= |b| {
      assert a == a[..n];
      NobodyEnds(a, b);
    } else {
      assert b == b[..n];
      NobodyEnds(b, a);
    }
    c.Completed();
    s.Completed();
  }

  // ---------- runs ----------

  /** What can happen next: one side's caller calls ssl_run_handshake, or some more of what the other
      side has sent arrives. */
  datatype Move = ClientRuns | ServerRuns | ToClient(n: nat) | ToServer(n: nat)

  lemma {:induction false} FromPrefix(a: seq<Item>, b: seq<Item>, server: bool)
    requires a <= b
    ensures From(a, server) <= From(b, server)
    decreases |b|
  {
    if |a| < |b| {
      assert b[..|b| - 1][..|a|] == a;
      FromPrefix(a, b[..|b| - 1], server);
    } else {
      assert a == b;
    }
  }

  lemma {:induction false} FromSender(log: seq<Item>, server: bool)
    ensures forall k :: 0 <= k < |From(log, server)| ==> From(log, server)[k].fromServer == server
  {
    if log != [] {
      FromSender(log[..|log| - 1], server);
    }
  }

  /** Up to n more of the items that were sent and have not arrived. */
  method Arrive(to: Connection, sent: seq<Item>, n: nat)
    requires to.Valid() && to.delivered <= From(sent, !to.server)
    modifies to`inbox, to`delivered
    ensures to.Valid() && old(to.delivered) <= to.delivered <= From(sent, !to.server)
    ensures old(to.Hashed()) ==> to.Hashed()
    ensures old(to.inbox) <= to.inbox
  {
    FromSender(sent, !to.server);
    var all := From(sent, !to.server);
    var had := |From(to.log, !to.server)| + |to.inbox|;
    var more := if had + n <= |all| then n else |all| - had;
    assert all[had..had + more] == all[..had + more][had..];
    to.Deliver(all[had..had + more]);
  }

  lemma RestingMeans(c: Client, s: Server)
    requires c.Resting() && s.Resting()
    ensures c.conn.Valid() && s.conn.Valid() && !c.conn.server && s.conn.server
  {
  }

  twostate lemma ClientStillRests(c: Client)
    requires old(c.Resting()) && unchanged(c) && old(c.conn.inbox) <= c.conn.inbox
    requires unchanged(c.conn`log, c.conn`transcript, c.conn`ready, c.conn`sealedRead, c.conn`sealedWrite)
    requires c.conn.Valid() && (old(c.conn.Hashed()) ==> c.conn.Hashed())
    ensures c.Resting()
  {
    hide Script, Part, Marks, Connection.Valid, Connection.Hashed;
  }

  twostate lemma ServerStillRests(s: Server)
    requires old(s.Resting()) && unchanged(s) && old(s.conn.inbox) <= s.conn.inbox
    requires unchanged(s.conn`log, s.conn`transcript, s.conn`ready, s.conn`sealedRead, s.conn`sealedWrite)
    requires s.conn.Valid() && (old(s.conn.Hashed()) ==> s.conn.Hashed())
    ensures s.Resting()
  {
    hide Script, Part, Marks, Connection.Valid, Connection.Hashed;
  }

  /** Every interleaving of the two machines and of arrivals in order keeps the joint state, until one
      side has failed. */
  method Converse(c: Client, s: Server, moves: seq<Move>) returns (failed: bool)
    requires Running(c, s) && c.conn != s.conn
    modifies c, s, c.conn, s.conn
    ensures if failed then c.wait.Error? || s.wait.Error? else Running(c, s)
  {
    hide Client.Resting, Server.Resting, Connection.Valid, Connection.Hashed, From;
    for i := 0 to |moves|
      invariant Running(c, s)
    {
      label before:
      RestingMeans(c, s);
      ghost var clientLog, serverLog := c.conn.log, s.conn.log;
      match moves[i] {
        case ClientRuns =>
          var _ := c.Run();
          if c.wait.Error? {
            return true;
          }
          FromPrefix(clientLog, c.conn.log, false);
        case ServerRuns =>
          var _ := s.Run();
          if s.wait.Error? {
            return true;
          }
          FromPrefix(serverLog, s.conn.log, true);
        case ToClient(n) =>
          Arrive(c.conn, s.conn.log, n);
          ClientStillRests@before(c);
        case ToServer(n) =>
          Arrive(s.conn, c.conn.log, n);
          ServerStillRests@before(s);
      }
    }
    return false;
  }

  /** Two new connections. */
  method Meet(mac: (seq<Msg>, bool) -> seq<byte>, peerMac: (seq<Msg>, bool) -> seq<byte>, dtls: bool, config: Config)
      returns (c: Client, s: Server)
    ensures Running(c, s) && c.conn != s.conn && fresh({c, s, c.conn, s.conn})
  {
    var clientConn := new Connection(false, mac);
    var serverConn := new Connection(true, peerMac);
    c := new Client(clientConn, dtls);
    s := new Server(serverConn, config);
  }

  /** Two new connections, and any run of them. When neither side has failed and both are done, each
      has checked the other's Finished over what is one and the same transcript. */
  method Connect(mac: (seq<Msg>, bool) -> seq<byte>, peerMac: (seq<Msg>, bool) -> seq<byte>, dtls: bool,
                 config: Config, moves: seq<Move>)
      returns (c: Client, s: Server, failed: bool)
    ensures if failed then c.wait.Error? || s.wait.Error? else Running(c, s)
    ensures !failed && c.state.Done? && s.state.Done? ==> c.conn.log == s.conn.log && c.conn.transcript == s.conn.transcript
  {
    hide Client.Resting, Server.Resting, Connection.Valid, Connection.Hashed, From, Running;
    c, s := Meet(mac, peerMac, dtls, config);
    failed := Converse(c, s, moves);
    if !failed && c.state.Done? && s.state.Done? {
      CompletedAlike(c, s);
    }
  }
}
