// One side of the handshake against a peer that may send anything: whatever comes in, however it is
// cut up and whichever callbacks are not ready, a side that is done has taken exactly one of the
// message sequences the protocol allows, with each Finished, CertificateVerify and ChannelID over
// its own transcript, and each ChangeCipherSpec where it belongs.

module HandshakeRefusal {
  import opened Wire
  import opened HandshakeScript

  // What happens to a side: it runs a transition, resolves what it waits for, has its flight taken,
  // or something comes in.
  datatype Event = Does(retry: bool) | Resolves | Flushes | Arrives(items: seq<Item>)

  // A side, and everything that has come in.
  datatype Trial<S> = Trial(x: Peer<S>, arrived: seq<Item>)

  type Transition<!S> = (Peer<S>, bool) -> Peer<S>

  predicate Enabled<S(==)>(t: Trial<S>, done: S, e: Event) {
    match e
    case Does(_) => t.x.wait.WaitOk? && t.x.state != done
    case Resolves => (t.x.wait.WaitMessage? || t.x.wait.WaitCcs? || t.x.wait.WaitCallback?) && !t.x.Blocked()
    case Flushes => t.x.wait.WaitFlush?
    case Arrives(_) => true
  }

  function Apply<S(==)>(step: Transition<S>, t: Trial<S>, done: S, e: Event): Trial<S>
    requires Enabled(t, done, e)
  {
    match e
    case Does(retry) => t.(x := step(t.x, retry))
    case Resolves => t.(x := t.x.Resolve())
    case Flushes => t.(x := t.x.(flight := [], wait := WaitOk))
    case Arrives(items) => Trial(t.x.(inbox := t.x.inbox + items), t.arrived + items)
  }

  ghost predicate Reaches<S>(step: Transition<S>, t: Trial<S>, done: S, events: seq<Event>, t': Trial<S>)
    decreases |events|
  {
    if events == [] then t' == t
    else Enabled(t, done, events[0]) && Reaches(step, Apply(step, t, done, events[0]), done, events[1..], t')
  }

  function Maybe<T>(b: bool, m: T): seq<T> {
    if b then [m] else []
  }

  // The client's last flight behind a transcript.
  function WithProtocol(neg: Negotiated, before: seq<Msg>): seq<Msg> {
    before + Maybe(neg.npn, NextProto)
  }

  function WithChannelId(neg: Negotiated, before: seq<Msg>): seq<Msg> {
    WithProtocol(neg, before) + Maybe(neg.channelId, ChannelId(WithProtocol(neg, before)))
  }

  function ClientEnd(neg: Negotiated, before: seq<Msg>): seq<Msg> {
    WithChannelId(neg, before) + [Finished(false, WithChannelId(neg, before))]
  }

  // And the server's.
  function WithTicket(neg: Negotiated, before: seq<Msg>): seq<Msg> {
    before + Maybe(neg.ticket, NewSessionTicket)
  }

  function ServerEnd(neg: Negotiated, before: seq<Msg>): seq<Msg> {
    WithTicket(neg, before) + [Finished(true, WithTicket(neg, before))]
  }

  lemma ClientEndIs<S>(neg: Negotiated, c: Peer<S>, a: Peer<S>, b: Peer<S>)
    requires a == c.SendCcs().SendIf(neg.npn, NextProto)
    requires b == a.SendIf(neg.channelId, ChannelId(a.transcript))
    ensures b.Send(Finished(false, b.transcript)).transcript == ClientEnd(neg, c.transcript)
  {
    assert a.transcript == WithProtocol(neg, c.transcript);
    assert b.transcript == WithChannelId(neg, c.transcript);
  }

  lemma Skipping<T>(before: seq<T>, m: T)
    ensures before + Maybe(false, m) == before && before + Maybe(true, m) == before + [m]
  {
  }

  lemma Taking(taken: seq<Item>, inbox: seq<Item>, item: Item)
    requires inbox != [] && inbox[0] == item
    ensures taken + inbox == taken + [item] + inbox[1..]
  {
  }

  lemma MoreArrives(taken: seq<Item>, inbox: seq<Item>, arrived: seq<Item>, items: seq<Item>)
    requires arrived == taken + inbox
    ensures arrived + items == taken + (inbox + items)
  {
  }

  // A transcript has a side's Finished, over what comes before it.
  ghost predicate FinishedBy(byServer: bool, transcript: seq<Msg>) {
    exists k :: 0 <= k < |transcript| && transcript[k] == Finished(byServer, transcript[..k])
  }

  ghost predicate SignedOver(transcript: seq<Msg>) {
    exists k :: 0 <= k < |transcript| && transcript[k] == CertificateVerify(transcript[..k])
  }

  ghost predicate BoundTo(transcript: seq<Msg>) {
    exists k :: 0 <= k < |transcript| && transcript[k] == ChannelId(transcript[..k])
  }

  // A message behind its transcript.
  lemma {:induction false} StandsAt(before: seq<Msg>, m: Msg, after: seq<Msg>) returns (k: nat)
    requires before + [m] <= after
    ensures k < |after| && after[k] == m && after[..k] == before
  {
    k := |before|;
    assert after[..k + 1] == before + [m];
  }
}

module HandshakeClientRefusal {
  import opened Wire
  import opened HandshakeScript
  import opened HandshakeClient
  import opened HandshakeRefusal

  // What the server told the client, and what it left out or put in.
  datatype Told = Told(neg: Negotiated, status: bool, exchange: bool, request: bool)

  // What is allowed of it: no certificate status that was not announced, a key exchange with an
  // ephemeral key, none with a plain certificate, a request only where there are certificates, and
  // nothing of all that in a resumption.
  predicate Allowed(f: Told) {
    && (f.status ==> f.neg.status) && (f.request ==> f.neg.certAuth)
    && if f.neg.resumed then !f.status && !f.exchange && !f.request
       else (f.neg.ecdhe ==> f.exchange) && (f.exchange && f.neg.certAuth ==> f.neg.ecdhe)
  }

  // The messages of a full handshake, in order.
  function Hellos(f: Told): seq<Msg> {
    [ClientHello, ServerHello(f.neg)]
  }

  function WithCertificate(f: Told): seq<Msg> {
    Hellos(f) + Maybe(f.neg.certAuth, Certificate(false))
  }

  function WithStatus(f: Told): seq<Msg> {
    WithCertificate(f) + Maybe(f.status, CertificateStatus)
  }

  function WithExchange(f: Told): seq<Msg> {
    WithStatus(f) + Maybe(f.exchange, ServerKeyExchange)
  }

  function WithRequest(f: Told): seq<Msg> {
    WithExchange(f) + Maybe(f.request, CertificateRequest)
  }

  function ServerFlight(f: Told): seq<Msg> {
    WithRequest(f) + [ServerHelloDone]
  }

  function WithOwnCertificate(f: Told, hasCert: bool): seq<Msg> {
    ServerFlight(f) + Maybe(f.request, Certificate(!hasCert))
  }

  function WithOwnExchange(f: Told, hasCert: bool): seq<Msg> {
    WithOwnCertificate(f, hasCert) + [ClientKeyExchange]
  }

  function WithOwnVerify(f: Told, hasCert: bool): seq<Msg> {
    WithOwnExchange(f, hasCert) + Maybe(f.request && hasCert, CertificateVerify(WithOwnExchange(f, hasCert)))
  }

  // In a resumption the server finishes first.
  function BeforeServerEnd(f: Told, hasCert: bool): seq<Msg> {
    if f.neg.resumed then Hellos(f) else ClientEnd(f.neg, WithOwnVerify(f, hasCert))
  }

  function BeforeClientEnd(f: Told, hasCert: bool): seq<Msg> {
    if f.neg.resumed then ServerEnd(f.neg, Hellos(f)) else WithOwnVerify(f, hasCert)
  }

  function Whole(f: Told, hasCert: bool): seq<Msg> {
    if f.neg.resumed then ClientEnd(f.neg, ServerEnd(f.neg, Hellos(f)))
    else ServerEnd(f.neg, ClientEnd(f.neg, WithOwnVerify(f, hasCert)))
  }

  // What the client takes from the wire in all that.
  function FromServer(f: Told): seq<Item> {
    [Hs(ServerHello(f.neg))]
    + if f.neg.resumed then []
      else Maybe(f.neg.certAuth, Hs(Certificate(false))) + Maybe(f.status, Hs(CertificateStatus))
           + Maybe(f.exchange, Hs(ServerKeyExchange)) + Maybe(f.request, Hs(CertificateRequest)) + [Hs(ServerHelloDone)]
  }

  function FromServerEnd(f: Told, hasCert: bool): seq<Item> {
    Maybe(f.neg.ticket, Hs(NewSessionTicket)) + [Ccs]
    + [Hs(Finished(true, WithTicket(f.neg, BeforeServerEnd(f, hasCert))))]
  }

  // The transcript of a client in this state.
  function TranscriptAt(f: Told, hasCert: bool, s: State): seq<Msg> {
    match s
    case StartConnect => []
    case EnterEarlyData => [ClientHello]
    case ReadServerHello => [ClientHello]
    case ReadServerCertificate => Hellos(f)
    case ReadCertificateStatus => WithCertificate(f)
    case VerifyServerCertificate => WithStatus(f)
    case ReadServerKeyExchange => WithStatus(f)
    case ReadCertificateRequest => WithExchange(f)
    case ReadServerHelloDone => WithRequest(f)
    case SendClientCertificate => ServerFlight(f)
    case SendClientKeyExchange => WithOwnCertificate(f, hasCert)
    case SendClientCertificateVerify => WithOwnExchange(f, hasCert)
    case SendClientFinished => BeforeClientEnd(f, hasCert)
    case FinishFlight => ClientEnd(f.neg, BeforeClientEnd(f, hasCert))
    case ReadSessionTicket => BeforeServerEnd(f, hasCert)
    case ProcessChangeCipherSpec => WithTicket(f.neg, BeforeServerEnd(f, hasCert))
    case ReadServerFinished => WithTicket(f.neg, BeforeServerEnd(f, hasCert))
    case FinishClientHandshake => Whole(f, hasCert)
    case Done => Whole(f, hasCert)
  }

  // What it has taken.
  function TakenAt(f: Told, hasCert: bool, s: State, ccsAwaited: bool): seq<Item> {
    match s
    case StartConnect => []
    case EnterEarlyData => []
    case ReadServerHello => []
    case ReadServerCertificate => [Hs(ServerHello(f.neg))]
    case ReadCertificateStatus => [Hs(ServerHello(f.neg))] + Maybe(f.neg.certAuth, Hs(Certificate(false)))
    case VerifyServerCertificate =>
      [Hs(ServerHello(f.neg))] + Maybe(f.neg.certAuth, Hs(Certificate(false))) + Maybe(f.status, Hs(CertificateStatus))
    case ReadServerKeyExchange =>
      [Hs(ServerHello(f.neg))] + Maybe(f.neg.certAuth, Hs(Certificate(false))) + Maybe(f.status, Hs(CertificateStatus))
    case ReadCertificateRequest =>
      [Hs(ServerHello(f.neg))] + Maybe(f.neg.certAuth, Hs(Certificate(false))) + Maybe(f.status, Hs(CertificateStatus))
      + Maybe(f.exchange, Hs(ServerKeyExchange))
    case ReadServerHelloDone =>
      [Hs(ServerHello(f.neg))] + Maybe(f.neg.certAuth, Hs(Certificate(false))) + Maybe(f.status, Hs(CertificateStatus))
      + Maybe(f.exchange, Hs(ServerKeyExchange)) + Maybe(f.request, Hs(CertificateRequest))
    case ProcessChangeCipherSpec =>
      FromServer(f) + Maybe(f.neg.ticket, Hs(NewSessionTicket)) + Maybe(!ccsAwaited, Ccs)
    case ReadServerFinished => FromServer(f) + Maybe(f.neg.ticket, Hs(NewSessionTicket)) + [Ccs]
    case FinishClientHandshake => FromServer(f) + FromServerEnd(f, hasCert)
    case Done => FromServer(f) + FromServerEnd(f, hasCert)
    case SendClientFinished => if f.neg.resumed then FromServer(f) + FromServerEnd(f, hasCert) else FromServer(f)
    case FinishFlight => if f.neg.resumed then FromServer(f) + FromServerEnd(f, hasCert) else FromServer(f)
    case _ => FromServer(f)
  }

  predicate Early(s: State) {
    s.StartConnect? || s.EnterEarlyData? || s.ReadServerHello?
  }

  predicate OnlyFull(s: State) {
    ReadsServerFlight(s) || s.SendClientCertificate? || s.SendClientKeyExchange? || s.SendClientCertificateVerify?
  }

  // Which of the server's choices are known in a state.
  predicate BeforeStatus(s: State) {
    Early(s) || s.ReadServerCertificate? || s.ReadCertificateStatus?
  }

  predicate BeforeExchange(s: State) {
    BeforeStatus(s) || s.VerifyServerCertificate? || s.ReadServerKeyExchange?
  }

  predicate BeforeRequest(s: State) {
    BeforeExchange(s) || s.ReadCertificateRequest?
  }

  // The client has come to where it is by these messages and no others.
  ghost predicate Follows(p: Params, c: Client, arrived: seq<Item>, f: Told) {
    && c.transcript == TranscriptAt(f, p.hasCert, c.state)
    && arrived == TakenAt(f, p.hasCert, c.state, c.wait.WaitCcs?) + c.inbox
    && Facts(c, f)
  }

  ghost predicate Facts(c: Client, f: Told) {
    && (!Early(c.state) ==> c.neg == Some(f.neg))
    && c.certReq == f.request
    && (f.status ==> f.neg.status && !BeforeStatus(c.state))
    && (f.request ==> f.neg.certAuth && !BeforeRequest(c.state))
    && (if BeforeExchange(c.state) || f.neg.resumed then !f.exchange
        else (f.neg.ecdhe ==> f.exchange) && (f.exchange && f.neg.certAuth ==> f.neg.ecdhe))
    && (OnlyFull(c.state) ==> !f.neg.resumed)
    && (f.neg.resumed ==> !f.status && !f.request)
    && (c.wait.WaitCcs? ==> c.state.ProcessChangeCipherSpec?)
  }

  // Unless it has refused what came.
  ghost predicate Goes(p: Params, c: Client, arrived: seq<Item>, f: Told) {
    (c.wait.WaitError? && c.state != Done) || Follows(p, c, arrived, f)
  }

  lemma {:induction false} EarlyGoes(p: Params, c: Client, arrived: seq<Item>, f: Told, retry: bool) returns (f': Told)
    requires Follows(p, c, arrived, f) && Early(c.state)
    ensures Goes(p, Do(p, c, retry), arrived, f')
  {
    f' := f;
    if c.state.ReadServerHello? && c.Peek().Some? && c.Peek().value.ServerHello? {
      f' := Told(c.Peek().value.neg, false, false, false);
      Taking([], c.inbox, Hs(c.Peek().value));
      assert [ClientHello] + [ServerHello(f'.neg)] == Hellos(f');
      assert f'.neg.resumed ==> FromServer(f') == [Hs(ServerHello(f'.neg))];
    }
  }

  lemma {:induction false} CertificateGoes(p: Params, c: Client, arrived: seq<Item>, f: Told)
    requires Follows(p, c, arrived, f) && c.state.ReadServerCertificate?
    ensures Goes(p, DoReadServerFlight(c, f.neg, false), arrived, f)
  {
    var taken := TakenAt(f, p.hasCert, c.state, false);
    Skipping(c.transcript, Certificate(false));
    Skipping(taken, Hs(Certificate(false)));
    if c.Peek().Some? {
      Taking(taken, c.inbox, Hs(c.Peek().value));
    }
  }

  lemma {:induction false} StatusGoes(p: Params, c: Client, arrived: seq<Item>, f: Told) returns (f': Told)
    requires Follows(p, c, arrived, f) && c.state.ReadCertificateStatus?
    ensures Goes(p, DoReadServerFlight(c, f.neg, false), arrived, f')
  {
    var taken := TakenAt(f, p.hasCert, c.state, false);
    Skipping(c.transcript, CertificateStatus);
    Skipping(taken, Hs(CertificateStatus));
    f' := f.(status := f.neg.status && c.Peek() == Some(CertificateStatus));
    if c.Peek().Some? {
      Taking(taken, c.inbox, Hs(c.Peek().value));
    }
  }

  lemma {:induction false} ExchangeGoes(p: Params, c: Client, arrived: seq<Item>, f: Told) returns (f': Told)
    requires Follows(p, c, arrived, f) && c.state.ReadServerKeyExchange?
    ensures Goes(p, DoReadServerFlight(c, f.neg, false), arrived, f')
  {
    var taken := TakenAt(f, p.hasCert, c.state, false);
    Skipping(c.transcript, ServerKeyExchange);
    Skipping(taken, Hs(ServerKeyExchange));
    f' := f.(exchange := c.Peek() == Some(ServerKeyExchange));
    if c.Peek().Some? {
      Taking(taken, c.inbox, Hs(c.Peek().value));
    }
  }

  lemma {:induction false} RequestGoes(p: Params, c: Client, arrived: seq<Item>, f: Told) returns (f': Told)
    requires Follows(p, c, arrived, f) && c.state.ReadCertificateRequest?
    ensures Goes(p, DoReadServerFlight(c, f.neg, false), arrived, f')
  {
    var taken := TakenAt(f, p.hasCert, c.state, false);
    Skipping(c.transcript, CertificateRequest);
    Skipping(taken, Hs(CertificateRequest));
    f' := f.(request := f.neg.certAuth && c.Peek() == Some(CertificateRequest));
    if c.Peek().Some? {
      Taking(taken, c.inbox, Hs(c.Peek().value));
    }
  }

  lemma Regrouped<T>(a: seq<T>, b: seq<T>, c: seq<T>, d: seq<T>, e: seq<T>, g: seq<T>)
    ensures a + b + c + d + e + g == a + (b + c + d + e + g)
  {
  }

  lemma {:induction false} HelloDoneGoes(p: Params, c: Client, arrived: seq<Item>, f: Told)
    requires Follows(p, c, arrived, f) && c.state.ReadServerHelloDone?
    ensures Goes(p, DoReadServerFlight(c, f.neg, false), arrived, f)
  {
    var taken := TakenAt(f, p.hasCert, c.state, false);
    if c.Peek().Some? {
      Taking(taken, c.inbox, Hs(c.Peek().value));
      Regrouped([Hs(ServerHello(f.neg))], Maybe(f.neg.certAuth, Hs(Certificate(false))),
                Maybe(f.status, Hs(CertificateStatus)), Maybe(f.exchange, Hs(ServerKeyExchange)),
                Maybe(f.request, Hs(CertificateRequest)), [Hs(ServerHelloDone)]);
    }
  }

  lemma {:induction false} ServerFlightGoes(p: Params, c: Client, arrived: seq<Item>, f: Told, retry: bool)
    returns (f': Told)
    requires Follows(p, c, arrived, f) && ReadsServerFlight(c.state)
    ensures Goes(p, DoReadServerFlight(c, f.neg, retry), arrived, f')
  {
    f' := f;
    match c.state {
      case ReadServerCertificate => CertificateGoes(p, c, arrived, f);
      case ReadCertificateStatus => f' := StatusGoes(p, c, arrived, f);
      case VerifyServerCertificate =>
      case ReadServerKeyExchange => f' := ExchangeGoes(p, c, arrived, f);
      case ReadCertificateRequest => f' := RequestGoes(p, c, arrived, f);
      case ReadServerHelloDone => HelloDoneGoes(p, c, arrived, f);
    }
  }

  lemma {:induction false} LastFlightGoes(p: Params, c: Client, arrived: seq<Item>, f: Told)
    requires Follows(p, c, arrived, f) && c.state.SendClientFinished?
    ensures Goes(p, DoSendClientFlight(p, c, f.neg, false), arrived, f)
  {
    var a := c.SendCcs().SendIf(f.neg.npn, NextProto);
    var b := a.SendIf(f.neg.channelId, ChannelId(a.transcript));
    ClientEndIs(f.neg, c, a, b);
    var r := b.Send(Finished(false, b.transcript)).Goto(FinishFlight).Await(WaitFlush);
    assert r.inbox == c.inbox && r.neg == c.neg && r.certReq == c.certReq;
  }

  lemma {:induction false} OwnCertificateGoes(p: Params, c: Client, arrived: seq<Item>, f: Told, retry: bool)
    requires Follows(p, c, arrived, f) && c.state.SendClientCertificate?
    ensures Goes(p, DoSendClientFlight(p, c, f.neg, retry), arrived, f)
  {
    Skipping(c.transcript, Certificate(!p.hasCert));
  }

  lemma {:induction false} OwnVerifyGoes(p: Params, c: Client, arrived: seq<Item>, f: Told, retry: bool)
    requires Follows(p, c, arrived, f) && c.state.SendClientCertificateVerify?
    ensures Goes(p, DoSendClientFlight(p, c, f.neg, retry), arrived, f)
  {
    Skipping(c.transcript, CertificateVerify(c.transcript));
  }

  lemma {:induction false} FlushedGoes(p: Params, c: Client, arrived: seq<Item>, f: Told)
    requires Follows(p, c, arrived, f) && c.state.FinishFlight?
    ensures Goes(p, DoSendClientFlight(p, c, f.neg, false), arrived, f)
  {
    assert c.transcript == if f.neg.resumed then Whole(f, p.hasCert) else BeforeServerEnd(f, p.hasCert);
  }

  lemma {:induction false} OwnFlightGoes(p: Params, c: Client, arrived: seq<Item>, f: Told, retry: bool)
    requires Follows(p, c, arrived, f) && SendsClientFlight(c.state)
    ensures Goes(p, DoSendClientFlight(p, c, f.neg, retry), arrived, f)
  {
    match c.state {
      case SendClientCertificate => OwnCertificateGoes(p, c, arrived, f, retry);
      case SendClientKeyExchange =>
      case SendClientCertificateVerify => OwnVerifyGoes(p, c, arrived, f, retry);
      case SendClientFinished =>
        if !(f.neg.channelId && retry) {
          LastFlightGoes(p, c, arrived, f);
        }
      case FinishFlight => FlushedGoes(p, c, arrived, f);
    }
  }

  lemma {:induction false} TicketGoes(p: Params, c: Client, arrived: seq<Item>, f: Told)
    requires Follows(p, c, arrived, f) && c.state.ReadSessionTicket?
    ensures Goes(p, DoReadServerEnd(c, f.neg), arrived, f)
  {
    Skipping(c.transcript, NewSessionTicket);
    Skipping(FromServer(f), Hs(NewSessionTicket));
    Skipping(FromServer(f) + Maybe(f.neg.ticket, Hs(NewSessionTicket)), Ccs);
    if c.Peek().Some? {
      Taking(FromServer(f), c.inbox, Hs(c.Peek().value));
    }
  }

  // What has come in with the server's Finished.
  lemma {:induction false} FinishedItems(f: Told, hasCert: bool, taken: seq<Item>, last: Item)
    requires taken == FromServer(f) + Maybe(f.neg.ticket, Hs(NewSessionTicket)) + [Ccs]
    requires last == Hs(Finished(true, WithTicket(f.neg, BeforeServerEnd(f, hasCert))))
    ensures taken + [last] == FromServer(f) + FromServerEnd(f, hasCert)
  {
    Regrouped(FromServer(f), Maybe(f.neg.ticket, Hs(NewSessionTicket)), [Ccs], [last], [], []);
  }

  lemma {:induction false} FinishedTaken(p: Params, c: Client, arrived: seq<Item>, f: Told, r: Client)
    requires Follows(p, c, arrived, f) && c.state.ReadServerFinished? && c.Peek() == Some(Finished(true, c.transcript))
    requires r == c.Receive()
    ensures arrived == FromServer(f) + FromServerEnd(f, p.hasCert) + r.inbox
    ensures r.transcript == ServerEnd(f.neg, BeforeServerEnd(f, p.hasCert))
  {
    var taken, last := TakenAt(f, p.hasCert, c.state, false), Hs(Finished(true, c.transcript));
    Taking(taken, c.inbox, last);
    FinishedItems(f, p.hasCert, taken, last);
  }

  // Where the client goes with it.
  lemma {:induction false} AfterFinished(p: Params, r: Client, arrived: seq<Item>, f: Told)
    requires r.state == (if f.neg.resumed then SendClientFinished else FinishClientHandshake) && r.wait.WaitOk?
    requires Facts(r, f) && arrived == FromServer(f) + FromServerEnd(f, p.hasCert) + r.inbox
    requires r.transcript == ServerEnd(f.neg, BeforeServerEnd(f, p.hasCert))
    ensures Follows(p, r, arrived, f)
  {
  }

  lemma {:induction false} AwaitGoes(p: Params, c: Client, arrived: seq<Item>, f: Told)
    requires Follows(p, c, arrived, f) && c.state.ReadServerFinished?
    ensures Follows(p, c.Await(WaitMessage), arrived, f)
  {
  }

  lemma {:induction false} AcceptedGoes(p: Params, c: Client, arrived: seq<Item>, f: Told, next: State)
    requires Follows(p, c, arrived, f) && c.state.ReadServerFinished? && c.Peek() == Some(Finished(true, c.transcript))
    requires next == if f.neg.resumed then SendClientFinished else FinishClientHandshake
    ensures Follows(p, c.Receive().Goto(next), arrived, f)
  {
    FinishedTaken(p, c, arrived, f, c.Receive());
    AfterFinished(p, c.Receive().Goto(next), arrived, f);
  }

  // Nothing but its own Finished takes the client on.
  lemma OnlyOwnFinished(c: Client, next: State)
    ensures var r := GetFinished(c, next);
            || (r.wait.WaitError? && r.state == c.state)
            || r == c.Await(WaitMessage)
            || (c.Peek() == Some(Finished(true, c.transcript)) && r == c.Receive().Goto(next))
  {
  }

  lemma {:induction false} FinishedGoes(p: Params, c: Client, arrived: seq<Item>, f: Told, next: State)
    requires Follows(p, c, arrived, f) && c.state.ReadServerFinished?
    requires next == if f.neg.resumed then SendClientFinished else FinishClientHandshake
    ensures Goes(p, GetFinished(c, next), arrived, f)
  {
    AwaitGoes(p, c, arrived, f);
    if c.Peek() == Some(Finished(true, c.transcript)) {
      AcceptedGoes(p, c, arrived, f, next);
    }
    OnlyOwnFinished(c, next);
  }

  lemma {:induction false} CcsIsAwaited(p: Params, c: Client, arrived: seq<Item>, f: Told)
    requires Follows(p, c, arrived, f) && c.state.ProcessChangeCipherSpec? && c.wait.WaitOk?
    ensures Goes(p, DoReadServerEnd(c, f.neg), arrived, f)
  {
    Skipping(FromServer(f) + Maybe(f.neg.ticket, Hs(NewSessionTicket)), Ccs);
  }

  lemma {:induction false} ServerEndGoes(p: Params, c: Client, arrived: seq<Item>, f: Told)
    requires Follows(p, c, arrived, f) && !Early(c.state) && c.wait.WaitOk?
    requires !ReadsServerFlight(c.state) && !SendsClientFlight(c.state) && c.state != Done
    ensures Goes(p, DoReadServerEnd(c, f.neg), arrived, f)
  {
    match c.state {
      case ReadSessionTicket => TicketGoes(p, c, arrived, f);
      case ProcessChangeCipherSpec => CcsIsAwaited(p, c, arrived, f);
      case ReadServerFinished =>
        FinishedGoes(p, c, arrived, f, if f.neg.resumed then SendClientFinished else FinishClientHandshake);
      case FinishClientHandshake =>
    }
  }

  // A transition takes what is allowed next, or refuses.
  lemma {:induction false} DoesGoes(p: Params, c: Client, arrived: seq<Item>, f: Told, retry: bool) returns (f': Told)
    requires Follows(p, c, arrived, f) && c.wait.WaitOk? && c.state != Done
    ensures Goes(p, Do(p, c, retry), arrived, f')
  {
    f' := f;
    if Early(c.state) {
      f' := EarlyGoes(p, c, arrived, f, retry);
    } else if ReadsServerFlight(c.state) {
      f' := ServerFlightGoes(p, c, arrived, f, retry);
    } else if SendsClientFlight(c.state) {
      OwnFlightGoes(p, c, arrived, f, retry);
    } else {
      ServerEndGoes(p, c, arrived, f);
    }
  }

  // So does what happens between transitions: only a ChangeCipherSpec ends the wait for one.
  lemma {:induction false} BetweenGoes(p: Params, t: Trial<State>, f: Told, e: Event)
    requires Follows(p, t.x, t.arrived, f) && Enabled(t, Done, e) && !e.Does?
    ensures var t' := Apply((x, retry) => Do(p, x, retry), t, Done, e); Goes(p, t'.x, t'.arrived, f)
  {
    var c := t.x;
    if e.Arrives? {
      MoreArrives(TakenAt(f, p.hasCert, c.state, c.wait.WaitCcs?), c.inbox, t.arrived, e.items);
    } else if e.Resolves? && c.wait.WaitCcs? && c.inbox[0].Ccs? {
      var before := FromServer(f) + Maybe(f.neg.ticket, Hs(NewSessionTicket));
      Skipping(before, Ccs);
      Taking(before, c.inbox, Ccs);
    }
  }

  // No run comes to anything else.
  lemma {:induction false} RunGoes(p: Params, t: Trial<State>, f: Told, events: seq<Event>, t': Trial<State>)
    returns (f': Told)
    requires Goes(p, t.x, t.arrived, f) && Reaches((x, retry) => Do(p, x, retry), t, Done, events, t')
    ensures Goes(p, t'.x, t'.arrived, f')
    decreases |events|
  {
    f' := f;
    if events != [] {
      var t1 := Apply((x, retry) => Do(p, x, retry), t, Done, events[0]);
      if Follows(p, t.x, t.arrived, f) {
        if events[0].Does? {
          f' := DoesGoes(p, t.x, t.arrived, f, events[0].retry);
        } else {
          BetweenGoes(p, t, f, events[0]);
        }
      }
      f' := RunGoes(p, t1, f', events[1..], t');
    }
  }

  lemma {:induction false} StartGoes(p: Params, f: Told)
    requires !f.status && !f.exchange && !f.request
    ensures Goes(p, START, [], f)
  {
    assert TranscriptAt(f, p.hasCert, StartConnect) == [] && TakenAt(f, p.hasCert, StartConnect, false) == [];
  }

  // A client that is done has had a Finished from the server over its own transcript up to there,
  // and all it took from the wire are the messages of one allowed handshake, in order, with the
  // ChangeCipherSpec right before that Finished.
  lemma {:induction false} DoneIsAuthentic(p: Params, events: seq<Event>, t: Trial<State>) returns (f: Told)
    requires Reaches((x, retry) => Do(p, x, retry), Trial(START, []), Done, events, t)
    requires t.x.state == Done
    ensures Allowed(f) && t.x.neg == Some(f.neg) && t.x.certReq == f.request
    ensures t.x.transcript == Whole(f, p.hasCert)
    ensures t.arrived == FromServer(f) + FromServerEnd(f, p.hasCert) + t.x.inbox
    ensures FinishedBy(true, t.x.transcript)
  {
    var start := Told(Negotiated(false, false, false, false, false, false, false), false, false, false);
    StartGoes(p, start);
    f := RunGoes(p, Trial(START, []), start, events, t);
    var before := WithTicket(f.neg, BeforeServerEnd(f, p.hasCert));
    var k := StandsAt(before, Finished(true, before), t.x.transcript);
  }
}

module HandshakeServerRefusal {
  import opened Wire
  import opened HandshakeScript
  import opened HandshakeServer
  import opened HandshakeRefusal

  // The messages of a handshake, in order; peerCert says that the client has sent a certificate.
  function Hellos(p: Params): seq<Msg> {
    [ClientHello] + [ServerHello(p.neg)]
  }

  function WithCertificate(p: Params): seq<Msg> {
    Hellos(p) + Maybe(p.neg.certAuth, Certificate(false)) + Maybe(p.neg.certAuth && p.neg.status, CertificateStatus)
  }

  function WithExchange(p: Params): seq<Msg> {
    WithCertificate(p) + Maybe(p.SendsKeyExchange(), ServerKeyExchange)
  }

  function ServerFlight(p: Params): seq<Msg> {
    WithExchange(p) + Maybe(p.certReq, CertificateRequest) + [ServerHelloDone]
  }

  function WithClientCertificate(p: Params, peerCert: bool): seq<Msg> {
    ServerFlight(p) + Maybe(p.certReq, Certificate(!peerCert))
  }

  function WithClientExchange(p: Params, peerCert: bool): seq<Msg> {
    WithClientCertificate(p, peerCert) + [ClientKeyExchange]
  }

  function WithVerify(p: Params, peerCert: bool): seq<Msg> {
    WithClientExchange(p, peerCert) + Maybe(peerCert, CertificateVerify(WithClientExchange(p, peerCert)))
  }

  function BeforeClientEnd(p: Params, peerCert: bool): seq<Msg> {
    if p.neg.resumed then ServerEnd(p.neg, Hellos(p)) else WithVerify(p, peerCert)
  }

  function BeforeServerEnd(p: Params, peerCert: bool): seq<Msg> {
    if p.neg.resumed then Hellos(p) else ClientEnd(p.neg, WithVerify(p, peerCert))
  }

  function Whole(p: Params, peerCert: bool): seq<Msg> {
    if p.neg.resumed then ClientEnd(p.neg, ServerEnd(p.neg, Hellos(p)))
    else ServerEnd(p.neg, ClientEnd(p.neg, WithVerify(p, peerCert)))
  }

  // What the server takes from the wire in all that.
  function FromClient(p: Params, peerCert: bool): seq<Item> {
    [Hs(ClientHello)]
    + if p.neg.resumed then []
      else Maybe(p.certReq, Hs(Certificate(!peerCert))) + [Hs(ClientKeyExchange)]
           + Maybe(peerCert, Hs(CertificateVerify(WithClientExchange(p, peerCert))))
  }

  function WithItems(p: Params, peerCert: bool, channelId: bool): seq<Item> {
    var before := BeforeClientEnd(p, peerCert);
    FromClient(p, peerCert) + [Ccs] + Maybe(p.neg.npn, Hs(NextProto))
    + Maybe(channelId && p.neg.channelId, Hs(ChannelId(WithProtocol(p.neg, before))))
  }

  function AllItems(p: Params, peerCert: bool): seq<Item> {
    WithItems(p, peerCert, true) + [Hs(Finished(false, WithChannelId(p.neg, BeforeClientEnd(p, peerCert))))]
  }

  predicate Early(s: State) {
    s.StartAccept? || s.ReadClientHello? || s.SelectCertificate? || s.SelectParameters?
  }

  predicate OnlyFull(s: State) {
    s.SendServerCertificate? || s.SendServerKeyExchange? || s.SendServerHelloDone? || s.ReadClientCertificate?
    || s.VerifyClientCertificate? || s.ReadClientKeyExchange? || s.ReadClientCertificateVerify?
  }

  predicate BeforeCertificate(s: State) {
    Early(s) || s.SendServerHello? || s.SendServerCertificate? || s.SendServerKeyExchange? || s.SendServerHelloDone?
    || s.ReadClientCertificate?
  }

  // The transcript of a server in this state.
  function TranscriptAt(p: Params, peerCert: bool, s: State): seq<Msg> {
    match s
    case SendServerHello => [ClientHello]
    case SendServerCertificate => Hellos(p)
    case SendServerKeyExchange => WithCertificate(p)
    case SendServerHelloDone => WithExchange(p)
    case ReadClientCertificate => ServerFlight(p)
    case VerifyClientCertificate => WithClientCertificate(p, peerCert)
    case ReadClientKeyExchange => WithClientCertificate(p, peerCert)
    case ReadClientCertificateVerify => WithClientExchange(p, peerCert)
    case ReadChangeCipherSpec => BeforeClientEnd(p, peerCert)
    case ProcessChangeCipherSpec => BeforeClientEnd(p, peerCert)
    case ReadNextProto => BeforeClientEnd(p, peerCert)
    case ReadChannelId => WithProtocol(p.neg, BeforeClientEnd(p, peerCert))
    case ReadClientFinished => WithChannelId(p.neg, BeforeClientEnd(p, peerCert))
    case SendServerFinished => BeforeServerEnd(p, peerCert)
    case FinishServerHandshake => Whole(p, peerCert)
    case Done => Whole(p, peerCert)
    case _ => []
  }

  // What it has taken.
  function TakenAt(p: Params, peerCert: bool, s: State, ccsAwaited: bool): seq<Item> {
    match s
    case VerifyClientCertificate => [Hs(ClientHello)] + Maybe(p.certReq, Hs(Certificate(!peerCert)))
    case ReadClientKeyExchange => [Hs(ClientHello)] + Maybe(p.certReq, Hs(Certificate(!peerCert)))
    case ReadClientCertificateVerify =>
      [Hs(ClientHello)] + Maybe(p.certReq, Hs(Certificate(!peerCert))) + [Hs(ClientKeyExchange)]
    case ReadChangeCipherSpec => FromClient(p, peerCert)
    case ProcessChangeCipherSpec => FromClient(p, peerCert) + Maybe(!ccsAwaited, Ccs)
    case ReadNextProto => FromClient(p, peerCert) + [Ccs]
    case ReadChannelId => WithItems(p, peerCert, false)
    case ReadClientFinished => WithItems(p, peerCert, true)
    case SendServerFinished => if p.neg.resumed then FromClient(p, peerCert) else AllItems(p, peerCert)
    case FinishServerHandshake => AllItems(p, peerCert)
    case Done => AllItems(p, peerCert)
    case _ => if Early(s) then [] else [Hs(ClientHello)]
  }

  // The server has come to where it is by these messages and no others.
  ghost predicate Follows(p: Params, c: Server, arrived: seq<Item>) {
    && c.transcript == TranscriptAt(p, c.peerCert, c.state)
    && arrived == TakenAt(p, c.peerCert, c.state, c.wait.WaitCcs?) + c.inbox
    && Facts(p, c)
  }

  ghost predicate Facts(p: Params, c: Server) {
    && (!Early(c.state) ==> c.neg == Some(p.neg) && c.certReq == p.certReq)
    && (c.state.SelectCertificate? || c.state.SelectParameters? ==> c.inbox != [] && c.inbox[0] == Hs(ClientHello))
    && (OnlyFull(c.state) ==> !p.neg.resumed)
    && (c.peerCert ==> p.certReq && !p.neg.resumed && !BeforeCertificate(c.state))
    && (!BeforeCertificate(c.state) && !p.neg.resumed && p.certReq && p.needCert ==> c.peerCert)
    && (c.wait.WaitCcs? ==> c.state.ProcessChangeCipherSpec?)
  }

  // Unless it has refused what came.
  ghost predicate Goes(p: Params, c: Server, arrived: seq<Item>) {
    (c.wait.WaitError? && c.state != Done) || Follows(p, c, arrived)
  }

  lemma {:induction false} EarlyGoes(p: Params, c: Server, arrived: seq<Item>, retry: bool)
    requires Follows(p, c, arrived) && Early(c.state) && !c.state.SelectParameters?
    ensures Goes(p, Do(p, c, retry), arrived)
  {
  }

  lemma {:induction false} ParametersGo(p: Params, c: Server, arrived: seq<Item>, retry: bool)
    requires Follows(p, c, arrived) && c.state.SelectParameters?
    ensures Goes(p, Do(p, c, retry), arrived)
  {
    Taking([], c.inbox, Hs(ClientHello));
  }

  lemma {:induction false} OwnCertificateGoes(p: Params, c: Server, arrived: seq<Item>)
    requires Follows(p, c, arrived) && c.state.SendServerCertificate?
    ensures Goes(p, DoSendServerFlight(p, c, p.neg, false), arrived)
  {
    Skipping(c.transcript, Certificate(false));
    Skipping(c.transcript + Maybe(p.neg.certAuth, Certificate(false)), CertificateStatus);
  }

  lemma {:induction false} OwnExchangeGoes(p: Params, c: Server, arrived: seq<Item>, retry: bool)
    requires Follows(p, c, arrived) && c.state.SendServerKeyExchange?
    ensures Goes(p, DoSendServerFlight(p, c, p.neg, retry), arrived)
  {
    Skipping(c.transcript, ServerKeyExchange);
  }

  lemma {:induction false} HelloDoneGoes(p: Params, c: Server, arrived: seq<Item>)
    requires Follows(p, c, arrived) && c.state.SendServerHelloDone?
    ensures Goes(p, DoSendServerFlight(p, c, p.neg, false), arrived)
  {
    Skipping(c.transcript, CertificateRequest);
  }

  lemma {:induction false} OwnFlightGoes(p: Params, c: Server, arrived: seq<Item>, retry: bool)
    requires Follows(p, c, arrived) && SendsServerFlight(c.state) && !c.state.SendServerFinished?
    ensures Goes(p, DoSendServerFlight(p, c, p.neg, retry), arrived)
  {
    match c.state {
      case SendServerHello =>
      case SendServerCertificate => OwnCertificateGoes(p, c, arrived);
      case SendServerKeyExchange => OwnExchangeGoes(p, c, arrived, retry);
      case SendServerHelloDone => HelloDoneGoes(p, c, arrived);
    }
  }

  lemma {:induction false} LastFlightGoes(p: Params, c: Server, arrived: seq<Item>)
    requires Follows(p, c, arrived) && c.state.SendServerFinished?
    ensures Goes(p, DoSendServerFlight(p, c, p.neg, false), arrived)
  {
    var a := c.SendIf(p.neg.ticket, NewSessionTicket).SendCcs();
    assert a.transcript == WithTicket(p.neg, c.transcript);
    var next := if p.neg.resumed then ReadChangeCipherSpec else FinishServerHandshake;
    var r := a.Send(Finished(true, a.transcript)).Goto(next).Await(WaitFlush);
    assert r.transcript == ServerEnd(p.neg, BeforeServerEnd(p, c.peerCert)) && r.inbox == c.inbox;
    assert Facts(p, r);
    LastFlightSent(p, r, arrived);
  }

  lemma {:induction false} LastFlightSent(p: Params, r: Server, arrived: seq<Item>)
    requires r.state == (if p.neg.resumed then ReadChangeCipherSpec else FinishServerHandshake) && r.wait.WaitFlush?
    requires r.transcript == ServerEnd(p.neg, BeforeServerEnd(p, r.peerCert)) && Facts(p, r)
    requires arrived == (if p.neg.resumed then FromClient(p, r.peerCert) else AllItems(p, r.peerCert)) + r.inbox
    ensures Follows(p, r, arrived)
  {
  }

  lemma {:induction false} CertificateGoes(p: Params, c: Server, arrived: seq<Item>)
    requires Follows(p, c, arrived) && c.state.ReadClientCertificate?
    ensures Goes(p, DoReadClientFlight(p, c, false), arrived)
  {
    var taken, peerCert := [Hs(ClientHello)], c.Peek() == Some(Certificate(false));
    Skipping(c.transcript, Certificate(!peerCert));
    Skipping(taken, Hs(Certificate(!peerCert)));
    if c.Peek().Some? {
      Taking(taken, c.inbox, Hs(c.Peek().value));
    }
  }

  lemma {:induction false} ExchangeGoes(p: Params, c: Server, arrived: seq<Item>, retry: bool)
    requires Follows(p, c, arrived) && c.state.ReadClientKeyExchange?
    ensures Goes(p, DoReadClientFlight(p, c, retry), arrived)
  {
    if c.Peek().Some? {
      Taking(TakenAt(p, c.peerCert, c.state, false), c.inbox, Hs(c.Peek().value));
    }
  }

  lemma Regrouped<T>(a: seq<T>, b: seq<T>, c: seq<T>, d: seq<T>)
    ensures a + b + c + d == a + (b + c + d)
  {
  }

  lemma {:induction false} VerifyGoes(p: Params, c: Server, arrived: seq<Item>)
    requires Follows(p, c, arrived) && c.state.ReadClientCertificateVerify?
    ensures Goes(p, DoReadClientFlight(p, c, false), arrived)
  {
    var m := CertificateVerify(c.transcript);
    var taken := TakenAt(p, c.peerCert, c.state, false);
    Skipping(c.transcript, m);
    Skipping(taken, Hs(m));
    Regrouped([Hs(ClientHello)], Maybe(p.certReq, Hs(Certificate(!c.peerCert))), [Hs(ClientKeyExchange)],
              Maybe(c.peerCert, Hs(m)));
    if c.Peek().Some? {
      Taking(taken, c.inbox, Hs(c.Peek().value));
    }
  }

  lemma {:induction false} ClientFlightGoes(p: Params, c: Server, arrived: seq<Item>, retry: bool)
    requires Follows(p, c, arrived) && ReadsClientFlight(c.state)
    ensures Goes(p, DoReadClientFlight(p, c, retry), arrived)
  {
    match c.state {
      case ReadClientCertificate => CertificateGoes(p, c, arrived);
      case VerifyClientCertificate =>
      case ReadClientKeyExchange => ExchangeGoes(p, c, arrived, retry);
      case ReadClientCertificateVerify => VerifyGoes(p, c, arrived);
      case ReadChangeCipherSpec => Skipping(FromClient(p, c.peerCert), Ccs);
    }
  }

  lemma {:induction false} NextProtoGoes(p: Params, c: Server, arrived: seq<Item>)
    requires Follows(p, c, arrived) && c.state.ReadNextProto?
    ensures Goes(p, DoFinish(c, p.neg), arrived)
  {
    var taken := TakenAt(p, c.peerCert, c.state, false);
    Skipping(c.transcript, NextProto);
    Skipping(taken, Hs(NextProto));
    Skipping(taken + Maybe(p.neg.npn, Hs(NextProto)), Hs(ChannelId(WithProtocol(p.neg, c.transcript))));
    if c.Peek().Some? {
      Taking(taken, c.inbox, Hs(c.Peek().value));
    }
  }

  lemma {:induction false} ChannelIdGoes(p: Params, c: Server, arrived: seq<Item>)
    requires Follows(p, c, arrived) && c.state.ReadChannelId?
    ensures Goes(p, DoFinish(c, p.neg), arrived)
  {
    var m := ChannelId(c.transcript);
    var taken := FromClient(p, c.peerCert) + [Ccs] + Maybe(p.neg.npn, Hs(NextProto));
    Skipping(c.transcript, m);
    Skipping(taken, Hs(m));
    if c.Peek().Some? {
      Taking(taken, c.inbox, Hs(c.Peek().value));
    }
  }

  // Where the server goes with the client's Finished.
  lemma {:induction false} AfterFinished(p: Params, c: Server, r: Server, arrived: seq<Item>)
    requires r.state == (if p.neg.resumed then FinishServerHandshake else SendServerFinished) && r.wait.WaitOk?
    requires Facts(p, r) && arrived == AllItems(p, r.peerCert) + r.inbox
    requires r.transcript == ClientEnd(p.neg, BeforeClientEnd(p, r.peerCert))
    ensures Follows(p, r, arrived)
  {
  }

  lemma {:induction false} AwaitGoes(p: Params, c: Server, arrived: seq<Item>)
    requires Follows(p, c, arrived) && c.state.ReadClientFinished?
    ensures Follows(p, c.Await(WaitMessage), arrived)
  {
  }

  lemma {:induction false} AcceptedGoes(p: Params, c: Server, arrived: seq<Item>, next: State)
    requires Follows(p, c, arrived) && c.state.ReadClientFinished? && c.Peek() == Some(Finished(false, c.transcript))
    requires next == if p.neg.resumed then FinishServerHandshake else SendServerFinished
    ensures Follows(p, c.Receive().Goto(next), arrived)
  {
    Taking(TakenAt(p, c.peerCert, c.state, false), c.inbox, Hs(c.Peek().value));
    AfterFinished(p, c, c.Receive().Goto(next), arrived);
  }

  // Nothing but its own Finished takes the server on.
  lemma OnlyOwnFinished(c: Server, next: State)
    ensures var r := GetFinished(c, next);
            || (r.wait.WaitError? && r.state == c.state)
            || r == c.Await(WaitMessage)
            || (c.Peek() == Some(Finished(false, c.transcript)) && r == c.Receive().Goto(next))
  {
  }

  lemma {:induction false} FinishedGoes(p: Params, c: Server, arrived: seq<Item>, next: State)
    requires Follows(p, c, arrived) && c.state.ReadClientFinished?
    requires next == if p.neg.resumed then FinishServerHandshake else SendServerFinished
    ensures Goes(p, GetFinished(c, next), arrived)
  {
    AwaitGoes(p, c, arrived);
    if c.Peek() == Some(Finished(false, c.transcript)) {
      AcceptedGoes(p, c, arrived, next);
    }
    OnlyOwnFinished(c, next);
  }

  lemma {:induction false} EndGoes(p: Params, c: Server, arrived: seq<Item>)
    requires Follows(p, c, arrived) && c.wait.WaitOk? && Finishes(c.state)
    ensures Goes(p, DoFinish(c, p.neg), arrived)
  {
    match c.state {
      case ProcessChangeCipherSpec => Skipping(FromClient(p, c.peerCert), Ccs);
      case ReadNextProto => NextProtoGoes(p, c, arrived);
      case ReadChannelId => ChannelIdGoes(p, c, arrived);
      case ReadClientFinished =>
        FinishedGoes(p, c, arrived, if p.neg.resumed then FinishServerHandshake else SendServerFinished);
      case FinishServerHandshake =>
    }
  }

  // A transition takes what is allowed next, or refuses.
  lemma {:induction false} DoesGoes(p: Params, c: Server, arrived: seq<Item>, retry: bool)
    requires Follows(p, c, arrived) && c.wait.WaitOk? && c.state != Done
    ensures Goes(p, Do(p, c, retry), arrived)
  {
    if c.state.SelectParameters? {
      ParametersGo(p, c, arrived, retry);
    } else if Early(c.state) {
      EarlyGoes(p, c, arrived, retry);
    } else if c.state.SendServerFinished? {
      LastFlightGoes(p, c, arrived);
    } else if SendsServerFlight(c.state) {
      OwnFlightGoes(p, c, arrived, retry);
    } else if ReadsClientFlight(c.state) {
      ClientFlightGoes(p, c, arrived, retry);
    } else {
      EndGoes(p, c, arrived);
    }
  }

  // So does what happens between transitions: only a ChangeCipherSpec ends the wait for one.
  lemma {:induction false} CcsGoes(p: Params, c: Server, arrived: seq<Item>)
    requires Follows(p, c, arrived) && c.wait.WaitCcs? && c.inbox != [] && c.inbox[0].Ccs?
    ensures Follows(p, c.(inbox := c.inbox[1..], wait := WaitOk), arrived)
  {
    Skipping(FromClient(p, c.peerCert), Ccs);
    Taking(FromClient(p, c.peerCert), c.inbox, Ccs);
  }

  lemma {:induction false} ArrivesGoes(p: Params, c: Server, arrived: seq<Item>, items: seq<Item>)
    requires Follows(p, c, arrived)
    ensures Follows(p, c.(inbox := c.inbox + items), arrived + items)
  {
    MoreArrives(TakenAt(p, c.peerCert, c.state, c.wait.WaitCcs?), c.inbox, arrived, items);
  }

  lemma {:induction false} BetweenGoes(p: Params, t: Trial<State>, e: Event)
    requires Follows(p, t.x, t.arrived) && Enabled(t, Done, e) && !e.Does?
    ensures var t' := Apply((x, retry) => Do(p, x, retry), t, Done, e); Goes(p, t'.x, t'.arrived)
  {
    if e.Arrives? {
      ArrivesGoes(p, t.x, t.arrived, e.items);
    } else if e.Resolves? && t.x.wait.WaitCcs? && t.x.inbox[0].Ccs? {
      CcsGoes(p, t.x, t.arrived);
    }
  }

  // No run comes to anything else.
  lemma {:induction false} RunGoes(p: Params, t: Trial<State>, events: seq<Event>, t': Trial<State>)
    requires Goes(p, t.x, t.arrived) && Reaches((x, retry) => Do(p, x, retry), t, Done, events, t')
    ensures Goes(p, t'.x, t'.arrived)
    decreases |events|
  {
    if events != [] {
      var t1 := Apply((x, retry) => Do(p, x, retry), t, Done, events[0]);
      if Follows(p, t.x, t.arrived) {
        if events[0].Does? {
          DoesGoes(p, t.x, t.arrived, events[0].retry);
        } else {
          BetweenGoes(p, t, events[0]);
        }
      }
      RunGoes(p, t1, events[1..], t');
    }
  }

  lemma {:induction false} IsBound(p: Params, peerCert: bool)
    requires peerCert ==> !p.neg.resumed
    ensures FinishedBy(false, Whole(p, peerCert))
    ensures peerCert ==> SignedOver(Whole(p, peerCert))
    ensures p.neg.channelId ==> BoundTo(Whole(p, peerCert))
  {
    var end := BeforeClientEnd(p, peerCert);
    var k := StandsAt(WithChannelId(p.neg, end), Finished(false, WithChannelId(p.neg, end)), Whole(p, peerCert));
    if peerCert {
      var exchange := WithClientExchange(p, peerCert);
      k := StandsAt(exchange, CertificateVerify(exchange), Whole(p, peerCert));
    }
    if p.neg.channelId {
      k := StandsAt(WithProtocol(p.neg, end), ChannelId(WithProtocol(p.neg, end)), Whole(p, peerCert));
    }
  }

  lemma {:induction false} StartGoes(p: Params)
    ensures Goes(p, START, [])
  {
    assert TranscriptAt(p, false, StartAccept) == [] && TakenAt(p, false, StartAccept, false) == [];
  }

  lemma {:induction false} AtTheEnd(p: Params, c: Server, arrived: seq<Item>)
    requires Goes(p, c, arrived) && c.state == Done
    ensures c.transcript == Whole(p, c.peerCert) && arrived == AllItems(p, c.peerCert) + c.inbox && Facts(p, c)
  {
  }

  // A server that is done has had a Finished from the client over its own transcript up to there;
  // all it took from the wire are the messages of one allowed handshake, in order, with the
  // ChangeCipherSpec where it belongs. If it has a client certificate it has had a CertificateVerify
  // over its own transcript, if it insists on one it has it, and where Channel ID was negotiated it
  // has had one over its own transcript.
  lemma {:induction false} DoneIsAuthentic(p: Params, events: seq<Event>, t: Trial<State>)
    requires Reaches((x, retry) => Do(p, x, retry), Trial(START, []), Done, events, t)
    requires t.x.state == Done
    ensures t.x.transcript == Whole(p, t.x.peerCert) && t.arrived == AllItems(p, t.x.peerCert) + t.x.inbox
    ensures t.x.peerCert ==> p.certReq && !p.neg.resumed
    ensures p.certReq && p.needCert && !p.neg.resumed ==> t.x.peerCert
    ensures FinishedBy(false, t.x.transcript)
    ensures t.x.peerCert ==> SignedOver(t.x.transcript)
    ensures p.neg.channelId ==> BoundTo(t.x.transcript)
  {
    StartGoes(p);
    RunGoes(p, Trial(START, []), events, t);
    AtTheEnd(p, t.x, t.arrived);
    IsBound(p, t.x.peerCert);
  }
}
