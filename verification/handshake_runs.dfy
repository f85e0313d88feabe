// Runs of an honest client and server over a network that delivers flights in order.

module HandshakeRuns {
  import opened Wire
  import opened HandshakeScript
  import opened HandshakeAgreement
  import C = HandshakeClient
  import S = HandshakeServer
  import HandshakeClientSteps
  import HandshakeServerSteps

  // Sending: the client goes on from a to a' over slots that are its own. It is behind the server,
  // passes it, or is ahead of it.
  lemma {:induction false} ClientSendsBehind(p: Params, a: nat, a': nat, b: nat, toClient: seq<Item>,
                                             fromServer: seq<Item>, toServer: seq<Item>, fromClient: seq<Item>)
    requires Net(p, a, b, toClient, fromServer, toServer, fromClient) && a <= a' && Owned(p, a, a', true)
    requires a' <= b
    ensures Net(p, a', b, toClient, fromServer, toServer, fromClient + Items(p, a, a'))
  {
    OwnedByNone(p, a, a');
    ItemsSplit(p, a, a', b);
    assert fromClient + Items(p, a, a') == [];
  }

  lemma {:induction false} ClientSendsPast(p: Params, a: nat, a': nat, b: nat, toClient: seq<Item>,
                                           fromServer: seq<Item>, toServer: seq<Item>, fromClient: seq<Item>)
    requires Net(p, a, b, toClient, fromServer, toServer, fromClient) && a <= a' && Owned(p, a, a', true)
    requires a <= b < a'
    ensures Net(p, a', b, toClient, fromServer, toServer, fromClient + Items(p, a, a'))
  {
    OwnedByNone(p, a, b);
    ItemsSplit(p, a, b, a');
    assert toServer + (fromClient + Items(p, a, a')) == Items(p, a, a');
  }

  lemma {:induction false} ClientSendsAhead(p: Params, a: nat, a': nat, b: nat, toClient: seq<Item>,
                                            fromServer: seq<Item>, toServer: seq<Item>, fromClient: seq<Item>)
    requires Net(p, a, b, toClient, fromServer, toServer, fromClient) && a <= a' && Owned(p, a, a', true)
    requires b < a
    ensures Net(p, a', b, toClient, fromServer, toServer, fromClient + Items(p, a, a'))
  {
    ItemsSplit(p, b, a, a');
    assert toServer + (fromClient + Items(p, a, a')) == toServer + fromClient + Items(p, a, a');
  }

  lemma {:induction false} ClientSends(p: Params, a: nat, a': nat, b: nat, toClient: seq<Item>,
                                       fromServer: seq<Item>, toServer: seq<Item>, fromClient: seq<Item>)
    requires Net(p, a, b, toClient, fromServer, toServer, fromClient) && a <= a' && Owned(p, a, a', true)
    ensures Net(p, a', b, toClient, fromServer, toServer, fromClient + Items(p, a, a'))
  {
    if a' <= b {
      ClientSendsBehind(p, a, a', b, toClient, fromServer, toServer, fromClient);
    } else if a <= b {
      ClientSendsPast(p, a, a', b, toClient, fromServer, toServer, fromClient);
    } else {
      ClientSendsAhead(p, a, a', b, toClient, fromServer, toServer, fromClient);
    }
  }

  lemma {:induction false} ServerSends(p: Params, a: nat, b: nat, b': nat, toClient: seq<Item>,
                                       fromServer: seq<Item>, toServer: seq<Item>, fromClient: seq<Item>)
    requires Net(p, a, b, toClient, fromServer, toServer, fromClient) && b <= b' && Owned(p, b, b', false)
    ensures Net(p, a, b', toClient, fromServer + Items(p, b, b'), toServer, fromClient)
  {
    if b' < a {
      OwnedByNone(p, b, b');
      ItemsSplit(p, b, b', a);
      assert fromServer + [] == fromServer;
    } else if b < a {
      OwnedByNone(p, b, a);
      ItemsSplit(p, b, a, b');
      assert toClient + (fromServer + Items(p, b, b')) == Items(p, a, b');
    } else {
      ItemsSplit(p, a, b, b');
      assert toClient + (fromServer + Items(p, b, b')) == toClient + fromServer + Items(p, b, b');
    }
  }

  // Slots that both own hold nothing.
  lemma {:induction false} OwnedByNone(p: Params, a: nat, b: nat)
    requires a <= b && Owned(p, a, b, true) && Owned(p, a, b, false)
    ensures Absent(p, a, b) && Items(p, a, b) == []
  {
    NothingBetween(p, a, b);
  }

  lemma {:induction false} ClientTakes(p: Params, a: nat, a': nat, b: nat, toClient: seq<Item>,
                                       fromServer: seq<Item>, toServer: seq<Item>, fromClient: seq<Item>)
    requires Net(p, a, b, toClient, fromServer, toServer, fromClient) && toClient != [] && b <= SLOTS
    requires Next(p, a) < a' && Absent(p, Next(p, a) + 1, a')
    ensures Net(p, a', b, toClient[1..], fromServer, toServer, fromClient)
  {
    HeadIsNext(p, a, b);
    var n := Next(p, a) + 1;
    assert (toClient + fromServer)[1..] == toClient[1..] + fromServer;
    assert Net(p, n, b, toClient[1..], fromServer, toServer, fromClient);
    NothingBetween(p, n, a');
    ClientSends(p, n, a', b, toClient[1..], fromServer, toServer, fromClient);
    assert fromClient + [] == fromClient;
  }

  lemma {:induction false} ServerTakes(p: Params, a: nat, b: nat, b': nat, toClient: seq<Item>,
                                       fromServer: seq<Item>, toServer: seq<Item>, fromClient: seq<Item>)
    requires Net(p, a, b, toClient, fromServer, toServer, fromClient) && toServer != [] && a <= SLOTS
    requires Next(p, b) < b' && Absent(p, Next(p, b) + 1, b')
    ensures Net(p, a, b', toClient, fromServer, toServer[1..], fromClient)
  {
    var n := Next(p, b) + 1;
    ServerTakesOne(p, a, b, toClient, fromServer, toServer, fromClient);
    NothingBetween(p, n, b');
    ServerSends(p, a, n, b', toClient, fromServer, toServer[1..], fromClient);
    assert fromServer + [] == fromServer;
  }

  lemma {:induction false} ServerTakesOne(p: Params, a: nat, b: nat, toClient: seq<Item>, fromServer: seq<Item>,
                                          toServer: seq<Item>, fromClient: seq<Item>)
    requires Net(p, a, b, toClient, fromServer, toServer, fromClient) && toServer != [] && a <= SLOTS
    ensures Net(p, a, Next(p, b) + 1, toClient, fromServer, toServer[1..], fromClient)
  {
    HeadIsNext(p, b, a);
    assert (toServer + fromClient)[1..] == toServer[1..] + fromClient;
    assert Items(p, a, a) == [];
  }

  // What arrives is what the script has next.
  lemma {:induction false} Fronts(p: Params, s: Sys)
    requires Inv(p, s)
    ensures FrontOk(p, ClientSlot(p, s.client), s.client, true) && FrontOk(p, ServerSlot(p, s.server), s.server, false)
  {
    var a, b := ClientSlot(p, s.client), ServerSlot(p, s.server);
    if s.client.inbox != [] {
      HeadIsNext(p, a, b);
    }
    if s.server.inbox != [] {
      HeadIsNext(p, b, a);
    }
  }

  lemma {:induction false} ClientMovesNet(p: Params, a: nat, a': nat, b: nat, c: C.Client, r: C.Client, s: S.Server)
    requires NetAt(p, a, b, c, s) && Moves(p, a, a', c, r, true) && b <= SLOTS
    ensures NetAt(p, a', b, r, s)
  {
    if Sent(p, a, a', c, r, true) {
      ClientSends(p, a, a', b, c.inbox, s.flight, s.inbox, c.flight);
    } else {
      ClientTakes(p, a, a', b, c.inbox, s.flight, s.inbox, c.flight);
    }
  }

  lemma {:induction false} ServerMovesNet(p: Params, a: nat, b: nat, b': nat, c: C.Client, s: S.Server, r: S.Server)
    requires NetAt(p, a, b, c, s) && Moves(p, b, b', s, r, false) && a <= SLOTS
    ensures NetAt(p, a, b', c, r)
  {
    if Sent(p, b, b', s, r, false) {
      ServerSends(p, a, b, b', c.inbox, s.flight, s.inbox, c.flight);
    } else {
      ServerTakes(p, a, b, b', c.inbox, s.flight, s.inbox, c.flight);
    }
  }

  lemma {:induction false} ClientDoesKeeps(p: Params, s: Sys, retry: bool)
    requires Inv(p, s) && Enabled(s, ClientDoes(retry))
    ensures Inv(p, Apply(p, s, ClientDoes(retry)))
  {
    var r := C.Do(p, s.client, retry);
    Fronts(p, s);
    HandshakeClientSteps.ClientStep(p, s.client, retry);
    ClientMovesNet(p, ClientSlot(p, s.client), ClientSlot(p, r), ServerSlot(p, s.server), s.client, r, s.server);
  }

  lemma {:induction false} ServerDoesKeeps(p: Params, s: Sys, retry: bool)
    requires Inv(p, s) && Enabled(s, ServerDoes(retry))
    ensures Inv(p, Apply(p, s, ServerDoes(retry)))
  {
    var r := S.Do(p, s.server, retry);
    Fronts(p, s);
    HandshakeServerSteps.ServerStep(p, s.server, retry);
    ServerMovesNet(p, ClientSlot(p, s.client), ServerSlot(p, s.server), ServerSlot(p, r), s.client, s.server, r);
  }

  // What is waited for is what comes.
  lemma {:induction false} ClientResolvesKeeps(p: Params, s: Sys)
    requires Inv(p, s) && Enabled(s, ClientResolves)
    ensures Inv(p, Apply(p, s, ClientResolves))
  {
    var c, r := s.client, s.client.Resolve();
    var a := ClientSlot(p, c);
    Fronts(p, s);
    if c.wait.WaitCcs? {
      ClientTakesCcs(p, c, r);
      ClientMovesNet(p, a, a + 1, ServerSlot(p, s.server), c, r, s.server);
    } else {
      assert r == c.Await(WaitOk) && ClientSlot(p, r) == a;
    }
  }

  lemma {:induction false} ClientTakesCcs(p: Params, c: C.Client, r: C.Client)
    requires ClientOk(p, c) && c.wait.WaitCcs? && !c.Blocked() && r == c.Resolve()
    requires FrontOk(p, ClientSlot(p, c), c, true)
    ensures ClientOk(p, r) && ClientSlot(p, r) == ClientSlot(p, c) + 1
    ensures Took(p, ClientSlot(p, c), ClientSlot(p, c) + 1, c, r)
  {
  }

  lemma {:induction false} ServerTakesCcs(p: Params, v: S.Server, r: S.Server)
    requires ServerOk(p, v) && v.wait.WaitCcs? && !v.Blocked() && r == v.Resolve()
    requires FrontOk(p, ServerSlot(p, v), v, false)
    ensures ServerOk(p, r) && ServerSlot(p, r) == ServerSlot(p, v) + 1
    ensures Took(p, ServerSlot(p, v), ServerSlot(p, v) + 1, v, r)
  {
  }

  lemma {:induction false} ServerResolvesKeeps(p: Params, s: Sys)
    requires Inv(p, s) && Enabled(s, ServerResolves)
    ensures Inv(p, Apply(p, s, ServerResolves))
  {
    var v, r := s.server, s.server.Resolve();
    var b := ServerSlot(p, v);
    Fronts(p, s);
    if v.wait.WaitCcs? {
      ServerTakesCcs(p, v, r);
      ServerMovesNet(p, ClientSlot(p, s.client), b, b + 1, s.client, v, r);
    } else {
      assert r == v.Await(WaitOk) && ServerSlot(p, r) == b;
    }
  }

  lemma {:induction false} FlushKeeps(p: Params, s: Sys, step: Step)
    requires Inv(p, s) && Enabled(s, step) && (step.ClientFlushes? || step.ServerFlushes?)
    ensures Inv(p, Apply(p, s, step))
  {
    var r := Apply(p, s, step);
    assert s.server.inbox + s.client.flight + [] == s.server.inbox + s.client.flight;
    assert s.client.inbox + s.server.flight + [] == s.client.inbox + s.server.flight;
    assert s.server.inbox + [] == s.server.inbox && s.client.inbox + [] == s.client.inbox;
    assert ClientSlot(p, r.client) == ClientSlot(p, s.client) && ServerSlot(p, r.server) == ServerSlot(p, s.server);
  }

  lemma {:induction false} StepKeepsInv(p: Params, s: Sys, step: Step)
    requires Inv(p, s) && Enabled(s, step)
    ensures Inv(p, Apply(p, s, step))
  {
    match step
    case ClientDoes(retry) => ClientDoesKeeps(p, s, retry);
    case ServerDoes(retry) => ServerDoesKeeps(p, s, retry);
    case ClientResolves => ClientResolvesKeeps(p, s);
    case ServerResolves => ServerResolvesKeeps(p, s);
    case ClientFlushes => FlushKeeps(p, s, step);
    case ServerFlushes => FlushKeeps(p, s, step);
  }

  ghost predicate Reaches(p: Params, s: Sys, steps: seq<Step>, s': Sys)
    decreases |steps|
  {
    if steps == [] then s' == s
    else Enabled(s, steps[0]) && Reaches(p, Apply(p, s, steps[0]), steps[1..], s')
  }

  lemma {:induction false} RunKeepsInv(p: Params, s: Sys, steps: seq<Step>, s': Sys)
    requires Inv(p, s) && Reaches(p, s, steps, s')
    ensures Inv(p, s')
    decreases |steps|
  {
    if steps != [] {
      StepKeepsInv(p, s, steps[0]);
      RunKeepsInv(p, Apply(p, s, steps[0]), steps[1..], s');
    }
  }

  const START := Sys(C.START, S.START)

  // In every run neither side meets a message it does not expect or a Finished, CertificateVerify
  // or ChannelID over another transcript than its own; what each has hashed is the script up to
  // where it is, every message once; and when both are done their transcripts are equal and
  // nothing is left on the way.
  lemma {:induction false} RunsAgree(p: Params, steps: seq<Step>, s: Sys)
    requires p.Agreed() && Reaches(p, START, steps, s)
    ensures !s.client.wait.WaitError? && !s.server.wait.WaitError?
    ensures s.client.transcript == Transcript(p, ClientSlot(p, s.client))
    ensures s.server.transcript == Transcript(p, ServerSlot(p, s.server))
    ensures s.client.state == C.Done && s.server.state == S.Done ==>
              && s.client.transcript == s.server.transcript == Transcript(p, SLOTS)
              && s.client.inbox == [] && s.server.inbox == []
  {
    StartIsGood(p);
    RunKeepsInv(p, START, steps, s);
  }

  lemma {:induction false} StartIsGood(p: Params)
    requires p.Agreed()
    ensures Inv(p, START)
  {
  }

  // A side that waits for the peer.
  predicate Stuck<T>(x: Peer<T>, done: bool) {
    done || x.Blocked()
  }

  // They never both wait for each other: until both are done, some step can be taken.
  lemma {:induction false} NoDeadlock(p: Params, steps: seq<Step>, s: Sys)
    requires p.Agreed() && Reaches(p, START, steps, s)
    requires !(s.client.state == C.Done && s.server.state == S.Done)
    ensures exists step :: Enabled(s, step)
  {
    StartIsGood(p);
    RunKeepsInv(p, START, steps, s);
    var step := NextStep(p, s);
  }

  // What a side that is not blocked can do.
  function Resume(w: Wait, does: Step, flushes: Step, resolves: Step): Step {
    if w.WaitOk? then does else if w.WaitFlush? then flushes else resolves
  }

  lemma {:induction false} NextStep(p: Params, s: Sys) returns (step: Step)
    requires Inv(p, s) && (s.client.state != C.Done || s.server.state != S.Done)
    ensures Enabled(s, step) && !IsRetry(step)
  {
    NotBothStuck(p, s);
    if !Stuck(s.client, s.client.state == C.Done) {
      step := Resume(s.client.wait, ClientDoes(false), ClientFlushes, ClientResolves);
    } else {
      step := Resume(s.server.wait, ServerDoes(false), ServerFlushes, ServerResolves);
    }
  }

  lemma {:induction false} NotBothStuck(p: Params, s: Sys)
    requires Inv(p, s) && (s.client.state != C.Done || s.server.state != S.Done)
    ensures !Stuck(s.client, s.client.state == C.Done) || !Stuck(s.server, s.server.state == S.Done)
  {
    if Stuck(s.client, s.client.state == C.Done) && Stuck(s.server, s.server.state == S.Done) {
      var a, b := ClientSlot(p, s.client), ServerSlot(p, s.server);
      ClientLooksAhead(p, s.client);
      ServerLooksAhead(p, s.server);
      NothingThere(p, if a <= b then a else b, if a <= b then b else a);
    }
  }

  // What a stuck side says of the slot it is at.
  lemma ClientLooksAhead(p: Params, c: C.Client)
    requires ClientOk(p, c) && Stuck(c, c.state == C.Done)
    ensures c.flight == [] && ClientSlot(p, c) <= SLOTS
    ensures if c.state == C.Done then ClientSlot(p, c) == SLOTS else PeerIsNext(p, ClientSlot(p, c), true)
  {
  }

  lemma ServerLooksAhead(p: Params, s: S.Server)
    requires ServerOk(p, s) && Stuck(s, s.state == S.Done)
    ensures s.flight == [] && ServerSlot(p, s) <= SLOTS
    ensures if s.state == S.Done then ServerSlot(p, s) == SLOTS else PeerIsNext(p, ServerSlot(p, s), false)
  {
  }

  lemma {:induction false} NothingThere(p: Params, a: nat, b: nat)
    requires a <= b && Items(p, a, b) == []
    ensures Absent(p, a, b) && (b <= SLOTS ==> Next(p, a) == Next(p, b))
    decreases b - a
  {
    if a < b {
      NothingThere(p, a + 1, b);
    }
  }
}
