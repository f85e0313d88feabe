// An honest client and server never see a message they do not expect, hash every message of
// the script once and in order, and do not both wait for the other.

module HandshakeAgreement {
  import opened Wire
  import opened HandshakeScript
  import C = HandshakeClient
  import S = HandshakeServer

  datatype Sys = Sys(client: C.Client, server: S.Server)

  // One side runs one transition, resolves what it waits for, or has its flight taken by the
  // network; retry is a callback that is not ready.
  datatype Step =
    | ClientDoes(retry: bool)
    | ClientResolves
    | ClientFlushes
    | ServerDoes(retry: bool)
    | ServerResolves
    | ServerFlushes

  // A step in which a callback may not be ready.
  predicate IsRetry(step: Step) {
    (step.ClientDoes? || step.ServerDoes?) && step.retry
  }

  predicate Enabled(s: Sys, step: Step) {
    match step
    case ClientDoes(_) => s.client.wait.WaitOk? && s.client.state != C.Done
    case ClientResolves =>
      (s.client.wait.WaitMessage? || s.client.wait.WaitCcs? || s.client.wait.WaitCallback?) && !s.client.Blocked()
    case ClientFlushes => s.client.wait.WaitFlush?
    case ServerDoes(_) => s.server.wait.WaitOk? && s.server.state != S.Done
    case ServerResolves =>
      (s.server.wait.WaitMessage? || s.server.wait.WaitCcs? || s.server.wait.WaitCallback?) && !s.server.Blocked()
    case ServerFlushes => s.server.wait.WaitFlush?
  }

  function Apply(p: Params, s: Sys, step: Step): Sys
    requires Enabled(s, step)
  {
    match step
    case ClientDoes(retry) => s.(client := C.Do(p, s.client, retry))
    case ClientResolves => s.(client := s.client.Resolve())
    case ClientFlushes =>
      Sys(s.client.(flight := [], wait := WaitOk), s.server.(inbox := s.server.inbox + s.client.flight))
    case ServerDoes(retry) => s.(server := S.Do(p, s.server, retry))
    case ServerResolves => s.(server := s.server.Resolve())
    case ServerFlushes =>
      Sys(s.client.(inbox := s.client.inbox + s.server.flight), s.server.(flight := [], wait := WaitOk))
  }

  // The slot each side has come to. While a ChangeCipherSpec is waited for it is not taken.
  function ClientSlot(p: Params, c: C.Client): nat {
    ClientStateSlot(p.neg.resumed, c.state, c.wait.WaitCcs?)
  }

  function ClientStateSlot(resumed: bool, s: C.State, ccs: bool): nat {
    match s
    case StartConnect => 0
    case EnterEarlyData => 1
    case ReadServerHello => 1
    case ReadServerCertificate => 2
    case ReadCertificateStatus => 3
    case VerifyServerCertificate => 4
    case ReadServerKeyExchange => 4
    case ReadCertificateRequest => 5
    case ReadServerHelloDone => 6
    case SendClientCertificate => 10
    case SendClientKeyExchange => 11
    case SendClientCertificateVerify => 12
    case SendClientFinished => 13
    case FinishFlight => 17
    case ReadSessionTicket => if resumed then 7 else 17
    case ProcessChangeCipherSpec => (if resumed then 8 else 18) + if ccs then 0 else 1
    case ReadServerFinished => if resumed then 9 else 19
    case FinishClientHandshake => SLOTS
    case Done => SLOTS
  }

  function ServerSlot(p: Params, s: S.Server): nat {
    ServerStateSlot(p.neg.resumed, s.state, s.wait.WaitCcs?)
  }

  function ServerStateSlot(resumed: bool, s: S.State, ccs: bool): nat {
    match s
    case StartAccept => 0
    case ReadClientHello => 0
    case SelectCertificate => 0
    case SelectParameters => 0
    case SendServerHello => 1
    case SendServerCertificate => 2
    case SendServerKeyExchange => 4
    case SendServerHelloDone => 5
    case ReadClientCertificate => 10
    case VerifyClientCertificate => 11
    case ReadClientKeyExchange => 11
    case ReadClientCertificateVerify => 12
    case ReadChangeCipherSpec => 13
    case ProcessChangeCipherSpec => if ccs then 13 else 14
    case ReadNextProto => 14
    case ReadChannelId => 15
    case ReadClientFinished => 16
    case SendServerFinished => if resumed then 7 else 17
    case FinishServerHandshake => SLOTS
    case Done => SLOTS
  }

  ghost predicate Owned(p: Params, a: nat, b: nat, byClient: bool) {
    forall k :: a <= k < b && Present(p, k) ==> ByClient(k) == byClient
  }

  // The peer is to send the next thing.
  ghost predicate PeerIsNext(p: Params, a: nat, byClient: bool) {
    Next(p, a) < SLOTS && ByClient(Next(p, a)) != byClient
  }

  // What is at the front of an inbox.
  ghost predicate FrontOk<S>(p: Params, a: nat, x: Peer<S>, byClient: bool) {
    x.inbox != [] ==> PeerIsNext(p, a, byClient) && x.inbox[0] == ItemAt(p, Next(p, a))
  }

  predicate Waits<S>(x: Peer<S>) {
    x.wait.WaitMessage? || x.wait.WaitCcs?
  }

  // One side by itself, at its slot.
  ghost predicate SideOk<S(!new)>(p: Params, a: nat, x: Peer<S>, byClient: bool) {
    && !x.wait.WaitError? && a <= SLOTS
    && x.transcript == Transcript(p, a)
    && (Waits(x) ==> PeerIsNext(p, a, byClient) && x.flight == [])
    && (x.wait.WaitMessage? ==> ItemAt(p, Next(p, a)).Hs?)
    && (x.wait.WaitCcs? ==> Next(p, a) == a && ItemAt(p, a).Ccs?)
  }

  predicate Early(s: C.State) {
    s.StartConnect? || s.EnterEarlyData? || s.ReadServerHello?
  }

  predicate OnlyFull(s: C.State) {
    C.ReadsServerFlight(s) || s.SendClientCertificate? || s.SendClientKeyExchange? || s.SendClientCertificateVerify?
  }

  predicate BeforeRequest(s: C.State) {
    Early(s) || s.ReadServerCertificate? || s.ReadCertificateStatus? || s.VerifyServerCertificate?
    || s.ReadServerKeyExchange? || s.ReadCertificateRequest?
  }

  predicate Sending(s: C.State) {
    s.SendClientKeyExchange? || s.SendClientCertificateVerify? || s.SendClientFinished?
  }

  ghost predicate ClientOk(p: Params, c: C.Client) {
    && SideOk(p, ClientSlot(p, c), c, true)
    && (if Early(c.state) then true else c.neg == Some(p.neg))
    && (OnlyFull(c.state) ==> !p.neg.resumed)
    && c.certReq == (p.certReq && !BeforeRequest(c.state))
    && (c.wait.WaitCcs? ==> c.state.ProcessChangeCipherSpec?)
    && (c.wait.WaitFlush? ==> c.state.EnterEarlyData? || c.state.FinishFlight?)
    && (!c.wait.WaitFlush? && !Sending(c.state) ==> c.flight == [])
  }

  predicate ServerEarly(s: S.State) {
    s.StartAccept? || s.ReadClientHello? || s.SelectCertificate? || s.SelectParameters?
  }

  predicate ServerOnlyFull(s: S.State) {
    s.SendServerCertificate? || s.SendServerKeyExchange? || s.SendServerHelloDone? || s.ReadClientCertificate?
    || s.VerifyClientCertificate? || s.ReadClientKeyExchange? || s.ReadClientCertificateVerify?
  }

  predicate BeforeCertificate(s: S.State) {
    ServerEarly(s) || s.SendServerHello? || s.SendServerCertificate? || s.SendServerKeyExchange?
    || s.SendServerHelloDone? || s.ReadClientCertificate?
  }

  predicate ServerSending(s: S.State) {
    s.SendServerCertificate? || s.SendServerKeyExchange? || s.SendServerHelloDone? || s.SendServerFinished?
  }

  ghost predicate ServerOk(p: Params, s: S.Server) {
    && SideOk(p, ServerSlot(p, s), s, false)
    && (ServerEarly(s.state) || (s.neg == Some(p.neg) && s.certReq == p.certReq))
    && (ServerOnlyFull(s.state) ==> !p.neg.resumed)
    && s.peerCert == (p.certReq && p.hasCert && !BeforeCertificate(s.state))
    && (s.wait.WaitCcs? ==> s.state.ProcessChangeCipherSpec?)
    && (s.wait.WaitFlush? ==>
          s.state.ReadClientCertificate? || s.state.ReadChangeCipherSpec? || s.state.FinishServerHandshake?)
    && (!s.wait.WaitFlush? && !ServerSending(s.state) ==> s.flight == [])
  }

  // What is under way is what the side that is ahead has sent and the other not yet taken.
  ghost predicate Net(p: Params, a: nat, b: nat, toClient: seq<Item>, fromServer: seq<Item>, toServer: seq<Item>,
                      fromClient: seq<Item>) {
    if a <= b then
      toClient + fromServer == Items(p, a, b) && Owned(p, a, b, false) && toServer == [] && fromClient == []
    else
      toServer + fromClient == Items(p, b, a) && Owned(p, b, a, true) && toClient == [] && fromServer == []
  }

  ghost predicate NetAt(p: Params, a: nat, b: nat, c: C.Client, s: S.Server) {
    Net(p, a, b, c.inbox, s.flight, s.inbox, c.flight)
  }

  ghost predicate Inv(p: Params, s: Sys) {
    && p.Agreed()
    && ClientOk(p, s.client) && ServerOk(p, s.server)
    && NetAt(p, ClientSlot(p, s.client), ServerSlot(p, s.server), s.client, s.server)
  }

  // A side goes from slot a to a' by sending what is in between, possibly nothing.
  ghost predicate Sent<S(!new)>(p: Params, a: nat, a': nat, x: Peer<S>, y: Peer<S>, byClient: bool) {
    && a <= a' && y.inbox == x.inbox
    && y.flight == x.flight + Items(p, a, a') && Owned(p, a, a', byClient)
  }

  // Or by taking the next thing from its inbox; absent slots after it are passed over.
  ghost predicate Took<S(!new)>(p: Params, a: nat, a': nat, x: Peer<S>, y: Peer<S>) {
    && x.inbox != [] && y.inbox == x.inbox[1..]
    && y.flight == x.flight && Next(p, a) < a' && Absent(p, Next(p, a) + 1, a')
  }

  ghost predicate Moves<S(!new)>(p: Params, a: nat, a': nat, x: Peer<S>, y: Peer<S>, byClient: bool) {
    Sent(p, a, a', x, y, byClient) || Took(p, a, a', x, y)
  }

  lemma {:induction false} OneSlot(p: Params, k: nat)
    ensures Items(p, k, k + 1) == if Present(p, k) then [ItemAt(p, k)] else []
    ensures Transcript(p, k + 1)
            == Transcript(p, k) + if Present(p, k) && ItemAt(p, k).Hs? then [ItemAt(p, k).msg] else []
  {
  }

  // Nothing is sent or hashed over absent slots.
  lemma {:induction false} QuietMove<S(!new)>(p: Params, a: nat, a': nat, x: Peer<S>, y: Peer<S>, byClient: bool)
    requires a <= a' && Absent(p, a, a') && y.inbox == x.inbox && y.flight == x.flight
    ensures Sent(p, a, a', x, y, byClient) && Transcript(p, a') == Transcript(p, a)
  {
    NothingBetween(p, a, a');
    assert x.flight + [] == x.flight;
  }

  // A message taken is the next one of the script.
  lemma {:induction false} TakenMove<S(!new)>(p: Params, a: nat, x: Peer<S>, byClient: bool)
    requires x.Peek().Some? && FrontOk(p, a, x, byClient) && x.transcript == Transcript(p, a)
    ensures Took(p, a, Next(p, a) + 1, x, x.Receive())
    ensures x.Receive().transcript == Transcript(p, Next(p, a) + 1)
    ensures Transcript(p, Next(p, a)) == x.transcript && ItemAt(p, Next(p, a)) == Hs(x.Peek().value)
  {
    NothingBetween(p, a, Next(p, a));
    OneSlot(p, Next(p, a));
  }
}
