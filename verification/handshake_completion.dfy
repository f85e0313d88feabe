// Every run of an honest client and server whose callbacks are ready in the end, and whose flights
// are flushed, comes to the end of the handshake.

module HandshakeCompletion {
  import opened Wire
  import opened HandshakeScript
  import opened HandshakeAgreement
  import opened HandshakeRuns
  import C = HandshakeClient
  import S = HandshakeServer

  // What a side has to do before its next transition.
  function Weight<T>(x: Peer<T>): nat {
    match x.wait
    case WaitOk => if x.inbox == [] then 2 else 0
    case WaitMessage => 1
    case WaitError => 0
    case _ => 3
  }

  function ClientLeft(c: C.Client): nat {
    4 * C.Rank(c.state, C.Resumed(c)) + Weight(c)
  }

  function ServerLeft(s: S.Server): nat {
    4 * S.Rank(s.state, S.Resumed(s)) + Weight(s)
  }

  function Left(s: Sys): nat {
    ClientLeft(s.client) + ServerLeft(s.server)
  }

  function Retries(steps: seq<Step>): nat {
    if steps == [] then 0 else (if IsRetry(steps[0]) then 1 else 0) + Retries(steps[1..])
  }

  // A message that is waited for is one that is not there: not even a ChangeCipherSpec is.
  lemma {:induction false} NothingToRead<T(!new)>(p: Params, a: nat, x: Peer<T>, byClient: bool)
    requires FrontOk(p, a, x, byClient) && x.Peek().None?
    requires SideOk(p, a, x.Await(WaitMessage), byClient)
    ensures x.inbox == []
  {
  }

  lemma {:induction false} ClientDoesLess(p: Params, s: Sys, retry: bool)
    requires Inv(p, s) && Enabled(s, ClientDoes(retry))
    ensures ClientLeft(C.Do(p, s.client, retry)) < ClientLeft(s.client) + if retry then 4 else 0
  {
    var c, r := s.client, C.Do(p, s.client, retry);
    C.OkDecreases(p, c, retry);
    ClientDoesKeeps(p, s, retry);
    if r.wait.WaitMessage? {
      Fronts(p, s);
      assert r == c.Await(WaitMessage) && ClientSlot(p, r) == ClientSlot(p, c);
      NothingToRead(p, ClientSlot(p, c), c, true);
    }
  }

  lemma {:induction false} ServerDoesLess(p: Params, s: Sys, retry: bool)
    requires Inv(p, s) && Enabled(s, ServerDoes(retry))
    ensures ServerLeft(S.Do(p, s.server, retry)) < ServerLeft(s.server) + if retry then 4 else 0
  {
    var v, r := s.server, S.Do(p, s.server, retry);
    S.OkDecreases(p, v, retry);
    ServerDoesKeeps(p, s, retry);
    if r.wait.WaitMessage? {
      Fronts(p, s);
      assert r == v.Await(WaitMessage) && ServerSlot(p, r) == ServerSlot(p, v);
      NothingToRead(p, ServerSlot(p, v), v, false);
    }
  }

  lemma ResolvingLess<T>(x: Peer<T>)
    requires (x.wait.WaitMessage? || x.wait.WaitCcs? || x.wait.WaitCallback?) && !x.Blocked()
    ensures Weight(x.Resolve()) < Weight(x)
    ensures x.Resolve().state == x.state && x.Resolve().neg == x.neg
  {
  }

  // Every step leaves less to do, but for a callback that is not ready.
  lemma {:induction false} StepLeavesLess(p: Params, s: Sys, step: Step)
    requires Inv(p, s) && Enabled(s, step)
    ensures Left(Apply(p, s, step)) < Left(s) + if IsRetry(step) then 4 else 0
  {
    match step
    case ClientDoes(retry) => ClientDoesLess(p, s, retry);
    case ServerDoes(retry) => ServerDoesLess(p, s, retry);
    case ClientResolves => ResolvingLess(s.client);
    case ServerResolves => ResolvingLess(s.server);
    case ClientFlushes =>
    case ServerFlushes =>
  }

  lemma {:induction false} RunLeavesLess(p: Params, s: Sys, steps: seq<Step>, s': Sys)
    requires Inv(p, s) && Reaches(p, s, steps, s')
    ensures |steps| + Left(s') <= Left(s) + 4 * Retries(steps)
    decreases |steps|
  {
    if steps != [] {
      StepLeavesLess(p, s, steps[0]);
      StepKeepsInv(p, s, steps[0]);
      RunLeavesLess(p, Apply(p, s, steps[0]), steps[1..], s');
    }
  }

  // No run is longer than 152 steps and four more for each callback that was not ready; one that
  // cannot go on but by another such callback has brought both sides to the end.
  lemma {:induction false} RunsComplete(p: Params, steps: seq<Step>, s: Sys)
    requires p.Agreed() && Reaches(p, START, steps, s)
    ensures |steps| <= 152 + 4 * Retries(steps)
    ensures (forall step :: Enabled(s, step) ==> IsRetry(step)) ==> s.client.state == C.Done && s.server.state == S.Done
  {
    StartIsGood(p);
    RunLeavesLess(p, START, steps, s);
    if !(s.client.state == C.Done && s.server.state == S.Done) {
      RunKeepsInv(p, START, steps, s);
      var step := NextStep(p, s);
    }
  }

  // And from wherever a run has come it can be brought to the end without one.
  lemma {:induction false} CanComplete(p: Params, s: Sys) returns (steps: seq<Step>, s': Sys)
    requires Inv(p, s)
    ensures Reaches(p, s, steps, s') && Retries(steps) == 0
    ensures s'.client.state == C.Done && s'.server.state == S.Done
    decreases Left(s)
  {
    if s.client.state == C.Done && s.server.state == S.Done {
      return [], s;
    }
    var step := NextStep(p, s);
    StepLeavesLess(p, s, step);
    StepKeepsInv(p, s, step);
    var r := Apply(p, s, step);
    var rest;
    rest, s' := CanComplete(p, r);
    steps := [step] + rest;
    assert steps[1..] == rest;
  }
}
