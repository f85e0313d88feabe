// The client's states and transitions.

module HandshakeClient {
  import opened Wire
  import opened HandshakeScript

  datatype State =
    | StartConnect | EnterEarlyData | ReadServerHello | ReadServerCertificate | ReadCertificateStatus
    | VerifyServerCertificate | ReadServerKeyExchange | ReadCertificateRequest | ReadServerHelloDone
    | SendClientCertificate | SendClientKeyExchange | SendClientCertificateVerify | SendClientFinished
    | FinishFlight | ReadSessionTicket | ProcessChangeCipherSpec | ReadServerFinished | FinishClientHandshake | Done

  type Client = Peer<State>

  const START: Client := Peer(StartConnect, WaitOk, None, false, false, [], [], [])

  // ssl_get_finished
  function GetFinished(c: Client, next: State): Client {
    match c.Peek()
    case None => c.Await(WaitMessage)
    case Some(Finished(true, over)) => if over == c.transcript then c.Receive().Goto(next) else c.Await(WaitError)
    case Some(_) => c.Await(WaitError)
  }

  // The do_ functions. retry is a callback that is not ready.
  function Do(p: Params, c: Client, retry: bool): Client {
    match c.state
    case StartConnect => c.Send(ClientHello).Goto(EnterEarlyData).Await(WaitFlush)
    case EnterEarlyData => c.Goto(ReadServerHello)
    case ReadServerHello => DoReadServerHello(c)
    case Done => c
    case _ => if c.neg.Some? then DoNegotiated(p, c, c.neg.value, retry) else c.Await(WaitError)
  }

  function DoReadServerHello(c: Client): Client {
    match c.Peek()
    case None => c.Await(WaitMessage)
    case Some(ServerHello(neg)) =>
      c.Receive().(neg := Some(neg)).Goto(if neg.resumed then ReadSessionTicket else ReadServerCertificate)
    case Some(_) => c.Await(WaitError)
  }

  function DoNegotiated(p: Params, c: Client, neg: Negotiated, retry: bool): Client {
    if ReadsServerFlight(c.state) then DoReadServerFlight(c, neg, retry)
    else if SendsClientFlight(c.state) then DoSendClientFlight(p, c, neg, retry)
    else DoReadServerEnd(c, neg)
  }

  predicate ReadsServerFlight(s: State) {
    s.ReadServerCertificate? || s.ReadCertificateStatus? || s.VerifyServerCertificate? || s.ReadServerKeyExchange?
    || s.ReadCertificateRequest? || s.ReadServerHelloDone?
  }

  predicate SendsClientFlight(s: State) {
    s.SendClientCertificate? || s.SendClientKeyExchange? || s.SendClientCertificateVerify? || s.SendClientFinished?
    || s.FinishFlight?
  }

  function DoReadServerFlight(c: Client, neg: Negotiated, retry: bool): Client {
    match c.state
    case ReadServerCertificate =>
      if !neg.certAuth then c.Goto(ReadCertificateStatus)
      else (match c.Peek()
            case None => c.Await(WaitMessage)
            case Some(Certificate(empty)) =>
              if empty then c.Await(WaitError) else c.Receive().Goto(ReadCertificateStatus)
            case Some(_) => c.Await(WaitError))
    case ReadCertificateStatus =>
      if !neg.status then c.Goto(VerifyServerCertificate)
      else (match c.Peek()
            case None => c.Await(WaitMessage)
            case Some(CertificateStatus) => c.Receive().Goto(VerifyServerCertificate)
            case Some(_) => c.Goto(VerifyServerCertificate))
    case VerifyServerCertificate =>
      if neg.certAuth && retry then c.Await(WaitCallback) else c.Goto(ReadServerKeyExchange)
    case ReadServerKeyExchange =>
      (match c.Peek()
       case None => c.Await(WaitMessage)
       case Some(ServerKeyExchange) =>
         if neg.ecdhe || !neg.certAuth then c.Receive().Goto(ReadCertificateRequest) else c.Await(WaitError)
       case Some(_) => if neg.ecdhe then c.Await(WaitError) else c.Goto(ReadCertificateRequest))
    case ReadCertificateRequest =>
      if !neg.certAuth then c.Goto(ReadServerHelloDone)
      else (match c.Peek()
            case None => c.Await(WaitMessage)
            case Some(ServerHelloDone) => c.Goto(ReadServerHelloDone)
            case Some(CertificateRequest) => c.Receive().(certReq := true).Goto(ReadServerHelloDone)
            case Some(_) => c.Await(WaitError))
    case ReadServerHelloDone =>
      (match c.Peek()
       case None => c.Await(WaitMessage)
       case Some(ServerHelloDone) => c.Receive().Goto(SendClientCertificate)
       case Some(_) => c.Await(WaitError))
    case _ => c
  }

  function DoSendClientFlight(p: Params, c: Client, neg: Negotiated, retry: bool): Client {
    match c.state
    case SendClientCertificate =>
      if !c.certReq then c.Goto(SendClientKeyExchange)
      else if retry then c.Await(WaitCallback)
      else c.Send(Certificate(!p.hasCert)).Goto(SendClientKeyExchange)
    case SendClientKeyExchange => c.Send(ClientKeyExchange).Goto(SendClientCertificateVerify)
    case SendClientCertificateVerify =>
      if !c.certReq || !p.hasCert then c.Goto(SendClientFinished)
      else if retry then c.Await(WaitCallback)
      else c.Send(CertificateVerify(c.transcript)).Goto(SendClientFinished)
    case SendClientFinished =>
      if neg.channelId && retry then c.Await(WaitCallback)
      else
        var a := c.SendCcs().SendIf(neg.npn, NextProto);
        var b := a.SendIf(neg.channelId, ChannelId(a.transcript));
        b.Send(Finished(false, b.transcript)).Goto(FinishFlight).Await(WaitFlush)
    case FinishFlight => c.Goto(if neg.resumed then FinishClientHandshake else ReadSessionTicket)
    case _ => c
  }

  function DoReadServerEnd(c: Client, neg: Negotiated): Client {
    match c.state
    case ReadSessionTicket =>
      if !neg.ticket then c.Goto(ProcessChangeCipherSpec).Await(WaitCcs)
      else (match c.Peek()
            case None => c.Await(WaitMessage)
            case Some(NewSessionTicket) => c.Receive().Goto(ProcessChangeCipherSpec).Await(WaitCcs)
            case Some(_) => c.Await(WaitError))
    case ProcessChangeCipherSpec => c.Goto(ReadServerFinished)
    case ReadServerFinished => GetFinished(c, if neg.resumed then SendClientFinished else FinishClientHandshake)
    case FinishClientHandshake => c.Goto(Done)
    case _ => c
  }

  // How many more transitions a client in this state can make. A resumption goes back from
  // ReadServerFinished to SendClientFinished, which the flag accounts for.
  function Rank(s: State, resumed: bool): nat {
    match s
    case StartConnect => 18
    case EnterEarlyData => 17
    case ReadServerHello => 16
    case ReadServerCertificate => 15
    case ReadCertificateStatus => 14
    case VerifyServerCertificate => 13
    case ReadServerKeyExchange => 12
    case ReadCertificateRequest => 11
    case ReadServerHelloDone => 10
    case SendClientCertificate => 9
    case SendClientKeyExchange => 8
    case SendClientCertificateVerify => 7
    case SendClientFinished => if resumed then 3 else 6
    case FinishFlight => if resumed then 2 else 5
    case ReadSessionTicket => if resumed then 6 else 4
    case ProcessChangeCipherSpec => if resumed then 5 else 3
    case ReadServerFinished => if resumed then 4 else 2
    case FinishClientHandshake => 1
    case Done => 0
  }

  predicate Resumed(c: Client) {
    c.neg.Some? && c.neg.value.resumed
  }

  // A transition goes down in rank, or it changes nothing but what is waited for: a message that is
  // not there, or a callback that is not ready.
  ghost predicate GoesDown(c: Client, r: Client, retry: bool) {
    if r.wait.WaitOk? || r.wait.WaitFlush? || r.wait.WaitCcs? then
      Rank(r.state, Resumed(r)) < Rank(c.state, Resumed(c))
    else
      && r == c.Await(r.wait)
      && (r.wait.WaitMessage? ==> c.Peek().None?)
      && (r.wait.WaitCallback? ==> retry)
  }

  lemma ServerFlightDecreases(c: Client, neg: Negotiated, retry: bool)
    requires ReadsServerFlight(c.state) && c.neg == Some(neg)
    ensures GoesDown(c, DoReadServerFlight(c, neg, retry), retry)
  {
  }

  lemma ClientFlightDecreases(p: Params, c: Client, neg: Negotiated, retry: bool)
    requires SendsClientFlight(c.state) && c.neg == Some(neg)
    ensures GoesDown(c, DoSendClientFlight(p, c, neg, retry), retry)
  {
  }

  lemma ServerEndDecreases(c: Client, neg: Negotiated)
    requires !ReadsServerFlight(c.state) && !SendsClientFlight(c.state) && c.neg == Some(neg)
    requires !c.state.StartConnect? && !c.state.EnterEarlyData? && !c.state.ReadServerHello? && c.state != Done
    ensures GoesDown(c, DoReadServerEnd(c, neg), false)
  {
  }

  lemma {:induction false} OkDecreases(p: Params, c: Client, retry: bool)
    requires c.state != Done
    ensures GoesDown(c, Do(p, c, retry), retry)
  {
    if c.neg.Some? {
      var neg := c.neg.value;
      if ReadsServerFlight(c.state) {
        ServerFlightDecreases(c, neg, retry);
      } else if SendsClientFlight(c.state) {
        ClientFlightDecreases(p, c, neg, retry);
      } else if c.state.ReadSessionTicket? || c.state.ProcessChangeCipherSpec?
                || c.state.ReadServerFinished? || c.state.FinishClientHandshake? {
        ServerEndDecreases(c, neg);
      }
    }
  }

  // Where a callback is asked: for the server's certificate, and for the client's certificate, signature
  // and Channel ID.
  predicate Asks(p: Params, c: Client) {
    c.neg.Some? &&
    match c.state
    case VerifyServerCertificate => c.neg.value.certAuth
    case SendClientCertificate => c.certReq
    case SendClientCertificateVerify => c.certReq && p.hasCert
    case SendClientFinished => c.neg.value.channelId
    case _ => false
  }

  // One that is not ready leaves the client as it was, and nothing else depends on callbacks.
  lemma {:induction false} CallbackOnlyDelays(p: Params, c: Client)
    ensures Do(p, c, true) == if Asks(p, c) then c.Await(WaitCallback) else Do(p, c, false)
  {
    if c.neg.Some? {
      var neg := c.neg.value;
      ServerFlightDelays(c, neg);
      ClientFlightDelays(p, c, neg);
    }
  }

  lemma ServerFlightDelays(c: Client, neg: Negotiated)
    ensures ReadsServerFlight(c.state) ==>
              DoReadServerFlight(c, neg, true) == if c.state.VerifyServerCertificate? && neg.certAuth
                                                  then c.Await(WaitCallback) else DoReadServerFlight(c, neg, false)
  {
  }

  lemma ClientFlightDelays(p: Params, c: Client, neg: Negotiated)
    requires c.neg == Some(neg)
    ensures SendsClientFlight(c.state) ==>
              DoSendClientFlight(p, c, neg, true) == if Asks(p, c) then c.Await(WaitCallback)
                                                     else DoSendClientFlight(p, c, neg, false)
  {
  }

  method NewClient(p: Params) returns (m: Machine<State>)
    ensures fresh(m) && m.hs == START && m.done == Done && m.Decreasing()
    ensures forall c: Client, retry: bool :: m.step(c, retry) == Do(p, c, retry)
  {
    m := new Machine((c: Client, retry: bool) => Do(p, c, retry), (c: Client) => Rank(c.state, Resumed(c)),
                     START, Done);
    forall c: Client, retry: bool | c.state != Done && c.wait == WaitOk && m.step(c, retry).wait == WaitOk
      ensures m.rank(m.step(c, retry)) < m.rank(c)
    {
      OkDecreases(p, c, retry);
    }
  }
}
