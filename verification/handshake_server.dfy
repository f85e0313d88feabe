// The server's states and transitions.

module HandshakeServer {
  import opened Wire
  import opened HandshakeScript

  datatype State =
    | StartAccept | ReadClientHello | SelectCertificate | SelectParameters | SendServerHello
    | SendServerCertificate | SendServerKeyExchange | SendServerHelloDone | ReadClientCertificate
    | VerifyClientCertificate | ReadClientKeyExchange | ReadClientCertificateVerify | ReadChangeCipherSpec
    | ProcessChangeCipherSpec | ReadNextProto | ReadChannelId | ReadClientFinished | SendServerFinished
    | FinishServerHandshake | Done

  type Server = Peer<State>

  const START: Server := Peer(StartAccept, WaitOk, None, false, false, [], [], [])

  // ssl_get_finished
  function GetFinished(s: Server, next: State): Server {
    match s.Peek()
    case None => s.Await(WaitMessage)
    case Some(Finished(false, over)) => if over == s.transcript then s.Receive().Goto(next) else s.Await(WaitError)
    case Some(_) => s.Await(WaitError)
  }

  // The do_ functions. retry is a callback that is not ready. ClientHello stays at the front until the
  // parameters are known.
  function Do(p: Params, s: Server, retry: bool): Server {
    match s.state
    case StartAccept => s.Goto(ReadClientHello)
    case ReadClientHello =>
      (match s.Peek()
       case None => s.Await(WaitMessage)
       case Some(ClientHello) => if retry then s.Await(WaitCallback) else s.Goto(SelectCertificate)
       case Some(_) => s.Await(WaitError))
    case SelectCertificate =>
      (match s.Peek()
       case None => s.Await(WaitMessage)
       case Some(_) => if retry then s.Await(WaitCallback) else s.Goto(SelectParameters))
    case SelectParameters =>
      (match s.Peek()
       case None => s.Await(WaitMessage)
       case Some(_) =>
         if retry then s.Await(WaitCallback)
         else s.Receive().(neg := Some(p.neg), certReq := p.certReq).Goto(SendServerHello))
    case Done => s
    case _ => if s.neg.Some? then DoNegotiated(p, s, s.neg.value, retry) else s.Await(WaitError)
  }

  function DoNegotiated(p: Params, s: Server, neg: Negotiated, retry: bool): Server {
    if SendsServerFlight(s.state) then DoSendServerFlight(p, s, neg, retry)
    else if ReadsClientFlight(s.state) then DoReadClientFlight(p, s, retry)
    else DoFinish(s, neg)
  }

  predicate SendsServerFlight(s: State) {
    s.SendServerHello? || s.SendServerCertificate? || s.SendServerKeyExchange? || s.SendServerHelloDone?
    || s.SendServerFinished?
  }

  predicate ReadsClientFlight(s: State) {
    s.ReadClientCertificate? || s.VerifyClientCertificate? || s.ReadClientKeyExchange? || s.ReadClientCertificateVerify?
    || s.ReadChangeCipherSpec?
  }

  function DoSendServerFlight(p: Params, s: Server, neg: Negotiated, retry: bool): Server {
    match s.state
    case SendServerHello =>
      s.Send(ServerHello(neg)).Goto(if neg.resumed then SendServerFinished else SendServerCertificate)
    case SendServerCertificate =>
      s.SendIf(neg.certAuth, Certificate(false)).SendIf(neg.certAuth && neg.status, CertificateStatus)
       .Goto(SendServerKeyExchange)
    case SendServerKeyExchange =>
      if !p.SendsKeyExchange() then s.Goto(SendServerHelloDone)
      else if neg.certAuth && retry then s.Await(WaitCallback)
      else s.Send(ServerKeyExchange).Goto(SendServerHelloDone)
    case SendServerHelloDone =>
      s.SendIf(s.certReq, CertificateRequest).Send(ServerHelloDone).Goto(ReadClientCertificate).Await(WaitFlush)
    case SendServerFinished =>
      var a := s.SendIf(neg.ticket, NewSessionTicket).SendCcs();
      a.Send(Finished(true, a.transcript))
       .Goto(if neg.resumed then ReadChangeCipherSpec else FinishServerHandshake).Await(WaitFlush)
    case _ => s
  }

  function DoReadClientFlight(p: Params, s: Server, retry: bool): Server {
    match s.state
    case ReadClientCertificate =>
      if !s.certReq then s.Goto(VerifyClientCertificate)
      else (match s.Peek()
            case None => s.Await(WaitMessage)
            case Some(Certificate(empty)) =>
              if empty && p.needCert then s.Await(WaitError)
              else s.Receive().(peerCert := !empty).Goto(VerifyClientCertificate)
            case Some(_) => s.Await(WaitError))
    case VerifyClientCertificate =>
      if s.peerCert && retry then s.Await(WaitCallback) else s.Goto(ReadClientKeyExchange)
    case ReadClientKeyExchange =>
      (match s.Peek()
       case None => s.Await(WaitMessage)
       case Some(ClientKeyExchange) =>
         if retry then s.Await(WaitCallback) else s.Receive().Goto(ReadClientCertificateVerify)
       case Some(_) => s.Await(WaitError))
    case ReadClientCertificateVerify =>
      if !s.peerCert then s.Goto(ReadChangeCipherSpec)
      else (match s.Peek()
            case None => s.Await(WaitMessage)
            case Some(CertificateVerify(over)) =>
              if over == s.transcript then s.Receive().Goto(ReadChangeCipherSpec) else s.Await(WaitError)
            case Some(_) => s.Await(WaitError))
    case ReadChangeCipherSpec => s.Goto(ProcessChangeCipherSpec).Await(WaitCcs)
    case _ => s
  }

  function DoFinish(s: Server, neg: Negotiated): Server {
    match s.state
    case ProcessChangeCipherSpec => s.Goto(ReadNextProto)
    case ReadNextProto =>
      if !neg.npn then s.Goto(ReadChannelId)
      else (match s.Peek()
            case None => s.Await(WaitMessage)
            case Some(NextProto) => s.Receive().Goto(ReadChannelId)
            case Some(_) => s.Await(WaitError))
    case ReadChannelId =>
      if !neg.channelId then s.Goto(ReadClientFinished)
      else (match s.Peek()
            case None => s.Await(WaitMessage)
            case Some(ChannelId(over)) =>
              if over == s.transcript then s.Receive().Goto(ReadClientFinished) else s.Await(WaitError)
            case Some(_) => s.Await(WaitError))
    case ReadClientFinished => GetFinished(s, if neg.resumed then FinishServerHandshake else SendServerFinished)
    case FinishServerHandshake => s.Goto(Done)
    case _ => s
  }

  // How many more transitions a server in this state can make. A resumption goes from
  // SendServerFinished back to ReadChangeCipherSpec.
  function Rank(s: State, resumed: bool): nat {
    match s
    case StartAccept => 19
    case ReadClientHello => 18
    case SelectCertificate => 17
    case SelectParameters => 16
    case SendServerHello => 15
    case SendServerCertificate => 14
    case SendServerKeyExchange => 13
    case SendServerHelloDone => 12
    case ReadClientCertificate => 11
    case VerifyClientCertificate => 10
    case ReadClientKeyExchange => 9
    case ReadClientCertificateVerify => 8
    case ReadChangeCipherSpec => 7
    case ProcessChangeCipherSpec => 6
    case ReadNextProto => 5
    case ReadChannelId => 4
    case ReadClientFinished => 3
    case SendServerFinished => if resumed then 8 else 2
    case FinishServerHandshake => 1
    case Done => 0
  }

  predicate Resumed(s: Server) {
    s.neg.Some? && s.neg.value.resumed
  }

  // A transition goes down in rank, or it changes nothing but what is waited for: a message that is
  // not there, or a callback that is not ready.
  ghost predicate GoesDown(s: Server, r: Server, retry: bool) {
    if r.wait.WaitOk? || r.wait.WaitFlush? || r.wait.WaitCcs? then
      Rank(r.state, Resumed(r)) < Rank(s.state, Resumed(s))
    else
      && r == s.Await(r.wait)
      && (r.wait.WaitMessage? ==> s.Peek().None?)
      && (r.wait.WaitCallback? ==> retry)
  }

  lemma ServerFlightDecreases(p: Params, s: Server, neg: Negotiated, retry: bool)
    requires SendsServerFlight(s.state) && s.neg == Some(neg)
    ensures GoesDown(s, DoSendServerFlight(p, s, neg, retry), retry)
  {
  }

  lemma ClientFlightDecreases(p: Params, s: Server, retry: bool)
    requires ReadsClientFlight(s.state)
    ensures GoesDown(s, DoReadClientFlight(p, s, retry), retry)
  {
  }

  predicate Finishes(s: State) {
    s.ProcessChangeCipherSpec? || s.ReadNextProto? || s.ReadChannelId? || s.ReadClientFinished?
    || s.FinishServerHandshake?
  }

  lemma FinishDecreases(s: Server, neg: Negotiated)
    requires s.state.ProcessChangeCipherSpec? || s.state.ReadNextProto? || s.state.FinishServerHandshake?
    requires s.neg == Some(neg)
    ensures GoesDown(s, DoFinish(s, neg), false)
  {
  }

  lemma ReadFinishedDecreases(s: Server, neg: Negotiated)
    requires s.state.ReadChannelId? || s.state.ReadClientFinished?
    requires s.neg == Some(neg)
    ensures GoesDown(s, DoFinish(s, neg), false)
  {
  }

  lemma {:induction false} OkDecreases(p: Params, s: Server, retry: bool)
    requires s.state != Done
    ensures GoesDown(s, Do(p, s, retry), retry)
  {
    if s.neg.Some? {
      var neg := s.neg.value;
      if SendsServerFlight(s.state) {
        ServerFlightDecreases(p, s, neg, retry);
      } else if ReadsClientFlight(s.state) {
        ClientFlightDecreases(p, s, retry);
      } else if s.state.ReadChannelId? || s.state.ReadClientFinished? {
        ReadFinishedDecreases(s, neg);
      } else if Finishes(s.state) {
        FinishDecreases(s, neg);
      }
    }
  }

  // Where a callback is asked: while the ClientHello is handled, for the server's signature, the client's
  // certificate and the decryption of the premaster secret.
  predicate Asks(p: Params, s: Server) {
    match s.state
    case ReadClientHello => s.Peek() == Some(ClientHello)
    case SelectCertificate => s.Peek().Some?
    case SelectParameters => s.Peek().Some?
    case SendServerKeyExchange => s.neg.Some? && p.SendsKeyExchange() && s.neg.value.certAuth
    case VerifyClientCertificate => s.neg.Some? && s.peerCert
    case ReadClientKeyExchange => s.neg.Some? && s.Peek() == Some(ClientKeyExchange)
    case _ => false
  }

  // One that is not ready leaves the server as it was, and nothing else depends on callbacks.
  lemma {:induction false} CallbackOnlyDelays(p: Params, s: Server)
    ensures Do(p, s, true) == if Asks(p, s) then s.Await(WaitCallback) else Do(p, s, false)
  {
    if s.neg.Some? {
      ServerFlightDelays(p, s, s.neg.value);
      ClientFlightDelays(p, s);
    }
  }

  lemma ServerFlightDelays(p: Params, s: Server, neg: Negotiated)
    requires s.neg == Some(neg)
    ensures SendsServerFlight(s.state) ==>
              DoSendServerFlight(p, s, neg, true) == if Asks(p, s) then s.Await(WaitCallback)
                                                     else DoSendServerFlight(p, s, neg, false)
  {
  }

  lemma ClientFlightDelays(p: Params, s: Server)
    requires s.neg.Some?
    ensures ReadsClientFlight(s.state) ==>
              DoReadClientFlight(p, s, true) == if Asks(p, s) then s.Await(WaitCallback)
                                                else DoReadClientFlight(p, s, false)
  {
  }

  method NewServer(p: Params) returns (m: Machine<State>)
    ensures fresh(m) && m.hs == START && m.done == Done && m.Decreasing()
    ensures forall s: Server, retry: bool :: m.step(s, retry) == Do(p, s, retry)
  {
    m := new Machine((s: Server, retry: bool) => Do(p, s, retry), (s: Server) => Rank(s.state, Resumed(s)),
                     START, Done);
    forall s: Server, retry: bool | s.state != Done && s.wait == WaitOk && m.step(s, retry).wait == WaitOk
      ensures m.rank(m.step(s, retry)) < m.rank(s)
    {
      OkDecreases(p, s, retry);
    }
  }
}
