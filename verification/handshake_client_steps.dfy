// Each transition of the client follows the script.

module HandshakeClientSteps {
  import opened Wire
  import opened HandshakeScript
  import opened HandshakeClient
  import opened HandshakeAgreement

  ghost predicate StepOk(p: Params, c: Client, r: Client) {
    ClientOk(p, r) && Moves(p, ClientSlot(p, c), ClientSlot(p, r), c, r, true)
  }

  ghost predicate Ready(p: Params, c: Client) {
    p.Agreed() && ClientOk(p, c) && c.wait.WaitOk? && FrontOk(p, ClientSlot(p, c), c, true)
  }

  // The slots of the states in which nothing is waited for but messages.
  lemma Slots(p: Params, c: Client)
    ensures c.state.ReadCertificateRequest? ==> ClientSlot(p, c) == 5
    ensures c.state.ReadServerHelloDone? ==> ClientSlot(p, c) == 6
    ensures c.state.FinishFlight? ==> ClientSlot(p, c) == 17
    ensures c.state.ReadSessionTicket? ==> ClientSlot(p, c) == if p.neg.resumed then 7 else 17
    ensures c.state.FinishClientHandshake? || c.state.Done? ==> ClientSlot(p, c) == SLOTS
  {
  }

  // From here on up to the end of the server's flight some message of the server comes next.
  lemma {:induction false} ServerFlightNext(p: Params, a: nat)
    requires !p.neg.resumed && 1 <= a <= 6
    ensures Next(p, a) <= 6 && PeerIsNext(p, a, true) && ItemAt(p, Next(p, a)).Hs?
  {
    assert Present(p, 6);
  }

  lemma {:induction false} Waiting(p: Params, c: Client, r: Client)
    requires Ready(p, c) && r == c.Await(WaitMessage) && c.flight == [] && PeerIsNext(p, ClientSlot(p, c), true)
    requires ItemAt(p, Next(p, ClientSlot(p, c))).Hs? && !c.state.ProcessChangeCipherSpec?
    ensures StepOk(p, c, r)
  {
  }

  // A callback that is not ready changes nothing.
  lemma {:induction false} Retried(p: Params, c: Client, r: Client)
    requires Ready(p, c) && r == c.Await(WaitCallback) && !c.state.ProcessChangeCipherSpec?
    ensures StepOk(p, c, r)
  {
    QuietMove(p, ClientSlot(p, c), ClientSlot(p, r), c, r, true);
  }

  lemma {:induction false} HelloSentStep(p: Params, c: Client, r: Client)
    requires Ready(p, c) && c.state.StartConnect? && r == c.Send(ClientHello).Goto(EnterEarlyData).Await(WaitFlush)
    ensures StepOk(p, c, r)
  {
    OneSlot(p, 0);
    assert Transcript(p, 0) == [];
  }

  lemma {:induction false} ServerHelloTaken(p: Params, c: Client, r: Client)
    requires Ready(p, c) && c.state.ReadServerHello? && c.Peek().Some?
    requires r == c.Receive().(neg := Some(p.neg))
                  .Goto(if p.neg.resumed then ReadSessionTicket else ReadServerCertificate)
    ensures StepOk(p, c, r)
  {
    assert Present(p, 1) && Next(p, 1) == 1;
    TakenMove(p, 1, c, true);
    if p.neg.resumed {
      NothingBetween(p, 2, 7);
    }
  }

  lemma {:induction false} ServerHelloStep(p: Params, c: Client, r: Client)
    requires Ready(p, c) && c.state.ReadServerHello? && r == DoReadServerHello(c)
    ensures StepOk(p, c, r)
  {
    assert Present(p, 1) && Next(p, 1) == 1;
    if c.Peek().None? {
      Waiting(p, c, r);
    } else {
      assert c.Peek().value == ServerHello(p.neg);
      ServerHelloTaken(p, c, r);
    }
  }

  lemma {:induction false} EarlyStep(p: Params, c: Client, retry: bool)
    requires Ready(p, c) && Early(c.state)
    ensures StepOk(p, c, Do(p, c, retry))
  {
    var r := Do(p, c, retry);
    match c.state {
      case StartConnect => HelloSentStep(p, c, r);
      case EnterEarlyData => QuietMove(p, 1, 1, c, r, true);
      case ReadServerHello => ServerHelloStep(p, c, r);
    }
  }

  // What there is to show of a state the client comes to without having to wait.
  ghost predicate Fits(p: Params, r: Client) {
    && r.wait.WaitOk? && !Early(r.state) && r.neg == Some(p.neg) && ClientSlot(p, r) <= SLOTS
    && (OnlyFull(r.state) ==> !p.neg.resumed)
    && r.certReq == (p.certReq && !BeforeRequest(r.state))
    && (!Sending(r.state) ==> r.flight == [])
  }

  lemma {:induction false} QuietStep(p: Params, c: Client, r: Client, next: State)
    requires Ready(p, c) && r == c.Goto(next) && Fits(p, r)
    requires ClientSlot(p, c) <= ClientSlot(p, r) && Absent(p, ClientSlot(p, c), ClientSlot(p, r))
    ensures StepOk(p, c, r)
  {
    QuietMove(p, ClientSlot(p, c), ClientSlot(p, r), c, r, true);
  }

  lemma {:induction false} TakenStep(p: Params, c: Client, r: Client, next: State)
    requires Ready(p, c) && c.Peek().Some?
    requires (r == c.Receive().Goto(next) || r == c.Receive().(certReq := true).Goto(next)) && Fits(p, r)
    requires Next(p, ClientSlot(p, c)) < ClientSlot(p, r) && Absent(p, Next(p, ClientSlot(p, c)) + 1, ClientSlot(p, r))
    ensures StepOk(p, c, r)
  {
    TakenMove(p, ClientSlot(p, c), c, true);
    NothingBetween(p, Next(p, ClientSlot(p, c)) + 1, ClientSlot(p, r));
  }

  lemma {:induction false} ServerCertificateStep(p: Params, c: Client, retry: bool)
    requires Ready(p, c) && c.state.ReadServerCertificate?
    ensures StepOk(p, c, DoReadServerFlight(c, p.neg, retry))
  {
    var r := DoReadServerFlight(c, p.neg, retry);
    ServerFlightNext(p, 2);
    if !p.neg.certAuth {
      QuietStep(p, c, r, ReadCertificateStatus);
    } else if c.Peek().None? {
      Waiting(p, c, r);
    } else {
      TakenMove(p, 2, c, true);
      assert Present(p, 2);
      TakenStep(p, c, r, ReadCertificateStatus);
    }
  }

  lemma {:induction false} CertificateStatusStep(p: Params, c: Client, retry: bool)
    requires Ready(p, c) && c.state.ReadCertificateStatus?
    ensures StepOk(p, c, DoReadServerFlight(c, p.neg, retry))
  {
    var r := DoReadServerFlight(c, p.neg, retry);
    ServerFlightNext(p, 3);
    if !p.neg.status {
      QuietStep(p, c, r, VerifyServerCertificate);
    } else if c.Peek().None? {
      Waiting(p, c, r);
    } else {
      TakenMove(p, 3, c, true);
      if Present(p, 3) {
        TakenStep(p, c, r, VerifyServerCertificate);
      } else {
        QuietStep(p, c, r, VerifyServerCertificate);
      }
    }
  }

  lemma {:induction false} VerifyStep(p: Params, c: Client, retry: bool)
    requires Ready(p, c) && c.state.VerifyServerCertificate?
    ensures StepOk(p, c, DoReadServerFlight(c, p.neg, retry))
  {
  }

  lemma {:induction false} ServerKeyExchangeStep(p: Params, c: Client, retry: bool)
    requires Ready(p, c) && c.state.ReadServerKeyExchange?
    ensures StepOk(p, c, DoReadServerFlight(c, p.neg, retry))
  {
    var r := DoReadServerFlight(c, p.neg, retry);
    ServerFlightNext(p, 4);
    if c.Peek().None? {
      Waiting(p, c, r);
    } else {
      TakenMove(p, 4, c, true);
      if Present(p, 4) {
        TakenStep(p, c, r, ReadCertificateRequest);
      } else {
        QuietStep(p, c, r, ReadCertificateRequest);
      }
    }
  }

  lemma {:induction false} CertificateRequestStep(p: Params, c: Client, retry: bool)
    requires Ready(p, c) && c.state.ReadCertificateRequest?
    ensures StepOk(p, c, DoReadServerFlight(c, p.neg, retry))
  {
    var r := DoReadServerFlight(c, p.neg, retry);
    Slots(p, c);
    Slots(p, r);
    ServerFlightNext(p, 5);
    if !p.neg.certAuth {
      QuietStep(p, c, r, ReadServerHelloDone);
    } else if c.Peek().None? {
      Waiting(p, c, r);
    } else {
      TakenMove(p, 5, c, true);
      if Present(p, 5) {
        TakenStep(p, c, r, ReadServerHelloDone);
      } else {
        assert Next(p, 5) == 6;
        QuietStep(p, c, r, ReadServerHelloDone);
      }
    }
  }

  lemma {:induction false} ServerHelloDoneStep(p: Params, c: Client, retry: bool)
    requires Ready(p, c) && c.state.ReadServerHelloDone?
    ensures StepOk(p, c, DoReadServerFlight(c, p.neg, retry))
  {
    var r := DoReadServerFlight(c, p.neg, retry);
    ServerFlightNext(p, 6);
    if c.Peek().None? {
      Waiting(p, c, r);
    } else {
      TakenMove(p, 6, c, true);
      TakenStep(p, c, r, SendClientCertificate);
    }
  }

  lemma {:induction false} ServerFlightStep(p: Params, c: Client, retry: bool)
    requires Ready(p, c) && ReadsServerFlight(c.state)
    ensures StepOk(p, c, DoReadServerFlight(c, p.neg, retry))
  {
    match c.state {
      case ReadServerCertificate => ServerCertificateStep(p, c, retry);
      case ReadCertificateStatus => CertificateStatusStep(p, c, retry);
      case VerifyServerCertificate => VerifyStep(p, c, retry);
      case ReadServerKeyExchange => ServerKeyExchangeStep(p, c, retry);
      case ReadCertificateRequest => CertificateRequestStep(p, c, retry);
      case ReadServerHelloDone => ServerHelloDoneStep(p, c, retry);
    }
  }

  // One message sent: it is the one in the client's slot.
  lemma {:induction false} SentStep(p: Params, c: Client, m: Msg, r: Client, next: State)
    requires Ready(p, c) && r == c.Send(m).Goto(next) && Fits(p, r) && ClientSlot(p, r) == ClientSlot(p, c) + 1
    requires Present(p, ClientSlot(p, c)) && ByClient(ClientSlot(p, c)) && ItemAt(p, ClientSlot(p, c)) == Hs(m)
    ensures StepOk(p, c, r)
  {
    OneSlot(p, ClientSlot(p, c));
  }

  lemma {:induction false} ClientCertificateStep(p: Params, c: Client, retry: bool)
    requires Ready(p, c) && c.state.SendClientCertificate?
    ensures StepOk(p, c, DoSendClientFlight(p, c, p.neg, retry))
  {
    var r := DoSendClientFlight(p, c, p.neg, retry);
    if !p.certReq {
      QuietStep(p, c, r, SendClientKeyExchange);
    } else if retry {
      Retried(p, c, r);
    } else {
      SentStep(p, c, Certificate(!p.hasCert), r, SendClientKeyExchange);
    }
  }

  lemma {:induction false} CertificateVerifyStep(p: Params, c: Client, retry: bool)
    requires Ready(p, c) && c.state.SendClientCertificateVerify?
    ensures StepOk(p, c, DoSendClientFlight(p, c, p.neg, retry))
  {
    var r := DoSendClientFlight(p, c, p.neg, retry);
    if !p.certReq || !p.hasCert {
      QuietStep(p, c, r, SendClientFinished);
    } else if retry {
      Retried(p, c, r);
    } else {
      SentStep(p, c, CertificateVerify(c.transcript), r, SendClientFinished);
    }
  }

  // The client's last flight: ChangeCipherSpec, NextProto, ChannelID and Finished, from slot a on.
  ghost predicate LastFlightAt(p: Params, a: nat) {
    && Present(p, a) && ItemAt(p, a) == Ccs
    && Present(p, a + 1) == p.neg.npn && ItemAt(p, a + 1) == Hs(NextProto)
    && Present(p, a + 2) == p.neg.channelId && ItemAt(p, a + 2) == Hs(ChannelId(Transcript(p, a + 2)))
    && Present(p, a + 3) && ItemAt(p, a + 3) == Hs(Finished(false, Transcript(p, a + 3)))
    && Owned(p, a, a + 4, true)
  }

  lemma LastFlightSlots(p: Params, a: nat)
    requires a == 13
    ensures LastFlightAt(p, a)
  {
  }

  lemma {:induction false} LastFlightTranscript(p: Params, a: nat)
    requires LastFlightAt(p, a)
    ensures Transcript(p, a + 2) == if p.neg.npn then Transcript(p, a) + [NextProto] else Transcript(p, a)
    ensures Transcript(p, a + 3)
            == if p.neg.channelId then Transcript(p, a + 2) + [ChannelId(Transcript(p, a + 2))]
               else Transcript(p, a + 2)
    ensures Transcript(p, a + 4) == Transcript(p, a + 3) + [Finished(false, Transcript(p, a + 3))]
  {
    OneSlot(p, a);
    OneSlot(p, a + 1);
    OneSlot(p, a + 2);
    OneSlot(p, a + 3);
  }

  lemma {:induction false} LastFlightItems(p: Params, a: nat, before: seq<Item>)
    requires LastFlightAt(p, a)
    ensures before + Items(p, a, a + 4)
         == before + [Ccs] + (if p.neg.npn then [Hs(NextProto)] else [])
            + (if p.neg.channelId then [Hs(ChannelId(Transcript(p, a + 2)))] else [])
            + [Hs(Finished(false, Transcript(p, a + 3)))]
  {
    OneSlot(p, a);
    OneSlot(p, a + 1);
    OneSlot(p, a + 2);
    OneSlot(p, a + 3);
    FourParts(p, a, before);
  }

  lemma {:induction false} FinishedFlight(p: Params, c: Client, a: nat, x: Client, y: Client)
    requires LastFlightAt(p, a) && c.transcript == Transcript(p, a)
    requires x == c.SendCcs().SendIf(p.neg.npn, NextProto) && y == x.SendIf(p.neg.channelId, ChannelId(x.transcript))
    ensures y.transcript == Transcript(p, a + 3)
    ensures y.Send(Finished(false, y.transcript)).transcript == Transcript(p, a + 4)
    ensures y.Send(Finished(false, y.transcript)).flight == c.flight + Items(p, a, a + 4)
    ensures y.inbox == c.inbox
  {
    LastFlightTranscript(p, a);
    LastFlightItems(p, a, c.flight);
    assert x.flight == c.flight + [Ccs] + if p.neg.npn then [Hs(NextProto)] else [];
  }

  // The client has sent its last flight and waits for it to be flushed.
  lemma {:induction false} LastFlightSent(p: Params, c: Client, a: nat, z: Client, r: Client)
    requires Ready(p, c) && c.state.SendClientFinished? && a == ClientSlot(p, c) && LastFlightAt(p, a)
    requires r == z.Goto(FinishFlight).Await(WaitFlush) && z.neg == c.neg && z.certReq == c.certReq
    requires z.inbox == c.inbox
    requires z.transcript == Transcript(p, a + 4) && z.flight == c.flight + Items(p, a, a + 4)
    ensures StepOk(p, c, r)
  {
    assert ClientSlot(p, r) == a + 4;
  }

  lemma {:induction false} ClientFinishedStep(p: Params, c: Client, retry: bool)
    requires Ready(p, c) && c.state.SendClientFinished?
    ensures StepOk(p, c, DoSendClientFlight(p, c, p.neg, retry))
  {
    var r := DoSendClientFlight(p, c, p.neg, retry);
    if p.neg.channelId && retry {
      Retried(p, c, r);
    } else {
      var a := ClientSlot(p, c);
      LastFlightSlots(p, a);
      var x := c.SendCcs().SendIf(p.neg.npn, NextProto);
      var y := x.SendIf(p.neg.channelId, ChannelId(x.transcript));
      FinishedFlight(p, c, a, x, y);
      LastFlightSent(p, c, a, y.Send(Finished(false, y.transcript)), r);
    }
  }

  lemma {:induction false} ClientKeyExchangeStep(p: Params, c: Client, retry: bool)
    requires Ready(p, c) && c.state.SendClientKeyExchange?
    ensures StepOk(p, c, DoSendClientFlight(p, c, p.neg, retry))
  {
    var r := DoSendClientFlight(p, c, p.neg, retry);
    SentStep(p, c, ClientKeyExchange, r, SendClientCertificateVerify);
  }

  lemma {:induction false} FlightFinishedStep(p: Params, c: Client, retry: bool)
    requires Ready(p, c) && c.state.FinishFlight?
    ensures StepOk(p, c, DoSendClientFlight(p, c, p.neg, retry))
  {
    var next := if p.neg.resumed then FinishClientHandshake else ReadSessionTicket;
    Slots(p, c);
    Slots(p, c.Goto(next));
    if p.neg.resumed {
      assert Absent(p, 17, SLOTS);
    }
    QuietStep(p, c, c.Goto(next), next);
  }

  lemma {:induction false} ClientFlightStep(p: Params, c: Client, retry: bool)
    requires Ready(p, c) && SendsClientFlight(c.state)
    ensures StepOk(p, c, DoSendClientFlight(p, c, p.neg, retry))
  {
    match c.state {
      case SendClientCertificate => ClientCertificateStep(p, c, retry);
      case SendClientKeyExchange => ClientKeyExchangeStep(p, c, retry);
      case SendClientCertificateVerify => CertificateVerifyStep(p, c, retry);
      case SendClientFinished => ClientFinishedStep(p, c, retry);
      case FinishFlight => FlightFinishedStep(p, c, retry);
    }
  }

  // The server's ChangeCipherSpec is next.
  lemma {:induction false} CcsIsNext(p: Params, a: nat)
    requires a == if p.neg.resumed then 8 else 18
    ensures PeerIsNext(p, a, true) && Next(p, a) == a && ItemAt(p, a).Ccs?
  {
  }

  // The client has come to the slot of the server's ChangeCipherSpec and waits for it.
  lemma {:induction false} CcsAwaited(p: Params, c: Client, r: Client, a': nat)
    requires Ready(p, c) && c.state.ReadSessionTicket? && a' == (if p.neg.resumed then 8 else 18)
    requires r.state.ProcessChangeCipherSpec? && r.wait.WaitCcs? && r.neg == c.neg && r.certReq == c.certReq
    requires r.flight == []
    requires r.transcript == Transcript(p, a') && Moves(p, ClientSlot(p, c), a', c, r, true)
    ensures StepOk(p, c, r)
  {
    CcsIsNext(p, a');
    assert ClientSlot(p, r) == a';
  }

  lemma {:induction false} SessionTicketStep(p: Params, c: Client)
    requires Ready(p, c) && c.state.ReadSessionTicket?
    ensures StepOk(p, c, DoReadServerEnd(c, p.neg))
  {
    var r, a := DoReadServerEnd(c, p.neg), ClientSlot(p, c);
    TicketPresent(p, a);
    if !p.neg.ticket {
      QuietMove(p, a, a + 1, c, r, true);
      CcsAwaited(p, c, r, a + 1);
    } else if c.Peek().None? {
      Waiting(p, c, r);
    } else {
      TakenMove(p, a, c, true);
      CcsAwaited(p, c, r, a + 1);
    }
  }

  lemma TicketPresent(p: Params, a: nat)
    requires a == if p.neg.resumed then 7 else 17
    ensures if p.neg.ticket
            then PeerIsNext(p, a, true) && Next(p, a) == a && ItemAt(p, a) == Hs(NewSessionTicket)
            else Absent(p, a, a + 1)
  {
  }

  lemma {:induction false} FinishedIsNext(p: Params, a: nat)
    requires a == if p.neg.resumed then 9 else 19
    ensures PeerIsNext(p, a, true) && Next(p, a) == a && ItemAt(p, a) == Hs(Finished(true, Transcript(p, a)))
  {
    assert Present(p, a);
  }

  lemma {:induction false} FinishedOk(p: Params, c: Client)
    requires Ready(p, c) && c.state.ReadServerFinished? && c.Peek().Some?
    ensures c.Peek().value == Finished(true, c.transcript)
  {
    FinishedIsNext(p, ClientSlot(p, c));
  }

  lemma {:induction false} FinishedTaken(p: Params, c: Client, r: Client, next: State)
    requires Ready(p, c) && c.state.ReadServerFinished? && c.Peek().Some? && r == c.Receive().Goto(next)
    requires next == if p.neg.resumed then SendClientFinished else FinishClientHandshake
    ensures StepOk(p, c, r)
  {
    FinishedIsNext(p, ClientSlot(p, c));
    FinishedIsLast(p, c, r);
    TakenStep(p, c, r, next);
  }

  // After Finished the client comes to the end, or in a resumption to its own flight.
  lemma {:induction false} FinishedIsLast(p: Params, c: Client, r: Client)
    requires p.Agreed() && c.state.ReadServerFinished? && c.wait.WaitOk? && c.Peek().Some?
    requires c.neg == Some(p.neg) && c.certReq == p.certReq && c.flight == []
    requires r == c.Receive().Goto(if p.neg.resumed then SendClientFinished else FinishClientHandshake)
    ensures Fits(p, r) && ClientSlot(p, c) + 1 <= ClientSlot(p, r)
    ensures Absent(p, ClientSlot(p, c) + 1, ClientSlot(p, r))
  {
    if p.neg.resumed {
      assert ClientSlot(p, c) == 9 && ClientSlot(p, r) == 13;
    } else {
      assert ClientSlot(p, c) == 19 && ClientSlot(p, r) == SLOTS;
    }
  }

  lemma {:induction false} ServerFinishedStep(p: Params, c: Client)
    requires Ready(p, c) && c.state.ReadServerFinished?
    ensures StepOk(p, c, DoReadServerEnd(c, p.neg))
  {
    var r := DoReadServerEnd(c, p.neg);
    if c.Peek().None? {
      FinishedIsNext(p, ClientSlot(p, c));
      Waiting(p, c, r);
    } else {
      FinishedOk(p, c);
      FinishedTaken(p, c, r, r.state);
    }
  }

  lemma {:induction false} CipherChangedStep(p: Params, c: Client)
    requires Ready(p, c) && c.state.ProcessChangeCipherSpec?
    ensures StepOk(p, c, DoReadServerEnd(c, p.neg))
  {
    var r := DoReadServerEnd(c, p.neg);
    QuietStep(p, c, r, ReadServerFinished);
  }

  lemma {:induction false} HandshakeFinishedStep(p: Params, c: Client)
    requires Ready(p, c) && c.state.FinishClientHandshake?
    ensures StepOk(p, c, DoReadServerEnd(c, p.neg))
  {
    Slots(p, c);
    Slots(p, c.Goto(Done));
    QuietStep(p, c, c.Goto(Done), Done);
  }

  lemma {:induction false} ServerEndStep(p: Params, c: Client)
    requires Ready(p, c) && c.state != Done && !Early(c.state) && !ReadsServerFlight(c.state)
    requires !SendsClientFlight(c.state)
    ensures StepOk(p, c, DoReadServerEnd(c, p.neg))
  {
    match c.state {
      case ReadSessionTicket => SessionTicketStep(p, c);
      case ProcessChangeCipherSpec => CipherChangedStep(p, c);
      case ReadServerFinished => ServerFinishedStep(p, c);
      case FinishClientHandshake => HandshakeFinishedStep(p, c);
    }
  }

  lemma {:induction false} ClientStep(p: Params, c: Client, retry: bool)
    requires Ready(p, c) && c.state != Done
    ensures StepOk(p, c, Do(p, c, retry))
  {
    if Early(c.state) {
      EarlyStep(p, c, retry);
    } else if ReadsServerFlight(c.state) {
      ServerFlightStep(p, c, retry);
    } else if SendsClientFlight(c.state) {
      ClientFlightStep(p, c, retry);
    } else {
      ServerEndStep(p, c);
    }
  }
}
