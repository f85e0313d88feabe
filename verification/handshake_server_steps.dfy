// Each transition of the server follows the script.

module HandshakeServerSteps {
  import opened Wire
  import opened HandshakeScript
  import opened HandshakeServer
  import opened HandshakeAgreement

  ghost predicate StepOk(p: Params, s: Server, r: Server) {
    ServerOk(p, r) && Moves(p, ServerSlot(p, s), ServerSlot(p, r), s, r, false)
  }

  ghost predicate Ready(p: Params, s: Server) {
    p.Agreed() && ServerOk(p, s) && s.wait.WaitOk? && FrontOk(p, ServerSlot(p, s), s, false)
  }

  // The slots of the later states.
  lemma Slots(p: Params, s: Server)
    ensures s.state.SendServerHelloDone? ==> ServerSlot(p, s) == 5
    ensures s.state.ReadClientCertificate? ==> ServerSlot(p, s) == 10
    ensures s.state.VerifyClientCertificate? || s.state.ReadClientKeyExchange? ==> ServerSlot(p, s) == 11
    ensures s.state.ReadClientCertificateVerify? ==> ServerSlot(p, s) == 12
    ensures s.state.ReadChangeCipherSpec? ==> ServerSlot(p, s) == 13
    ensures s.state.ReadNextProto? ==> ServerSlot(p, s) == 14
    ensures s.state.ReadChannelId? ==> ServerSlot(p, s) == 15
    ensures s.state.ReadClientFinished? ==> ServerSlot(p, s) == 16
    ensures s.state.SendServerFinished? ==> ServerSlot(p, s) == if p.neg.resumed then 7 else 17
    ensures s.state.FinishServerHandshake? || s.state.Done? ==> ServerSlot(p, s) == SLOTS
  {
  }

  // The slot holds a message of the client's.
  predicate ClientSlotAt(p: Params, a: nat) {
    Present(p, a) && ByClient(a) && ItemAt(p, a).Hs?
  }

  lemma {:induction false} Waiting(p: Params, s: Server, r: Server)
    requires Ready(p, s) && r == s.Await(WaitMessage) && s.flight == [] && !s.state.ProcessChangeCipherSpec?
    requires ClientSlotAt(p, ServerSlot(p, s))
    ensures StepOk(p, s, r)
  {
  }

  lemma {:induction false} Retried(p: Params, s: Server, r: Server)
    requires Ready(p, s) && r == s.Await(WaitCallback) && !s.state.ProcessChangeCipherSpec?
    ensures StepOk(p, s, r)
  {
    QuietMove(p, ServerSlot(p, s), ServerSlot(p, r), s, r, false);
  }

  // What there is to show of a state the server comes to without having to wait.
  ghost predicate Fits(p: Params, r: Server) {
    && r.wait.WaitOk? && !ServerEarly(r.state) && r.neg == Some(p.neg) && r.certReq == p.certReq
    && ServerSlot(p, r) <= SLOTS
    && (ServerOnlyFull(r.state) ==> !p.neg.resumed)
    && r.peerCert == (p.certReq && p.hasCert && !BeforeCertificate(r.state))
    && (!ServerSending(r.state) ==> r.flight == [])
  }

  lemma {:induction false} QuietStep(p: Params, s: Server, r: Server, next: State)
    requires Ready(p, s) && r == s.Goto(next) && Fits(p, r)
    requires ServerSlot(p, s) <= ServerSlot(p, r) && Absent(p, ServerSlot(p, s), ServerSlot(p, r))
    ensures StepOk(p, s, r)
  {
    QuietMove(p, ServerSlot(p, s), ServerSlot(p, r), s, r, false);
  }

  // The message in the server's slot is taken.
  lemma {:induction false} TakenStep(p: Params, s: Server, r: Server, b: nat, b': nat)
    requires Ready(p, s) && s.Peek().Some? && Fits(p, r) && ClientSlotAt(p, b)
    requires b == ServerSlot(p, s) && b' == ServerSlot(p, r)
    requires r.transcript == s.Receive().transcript && r.inbox == s.Receive().inbox && r.flight == s.flight
    requires b < b' && Absent(p, b + 1, b')
    ensures StepOk(p, s, r)
  {
    TakenMove(p, b, s, false);
    NothingBetween(p, b + 1, b');
  }

  // What is at the front is the message in the slot.
  lemma Front(p: Params, s: Server)
    requires Ready(p, s) && ClientSlotAt(p, ServerSlot(p, s))
    ensures s.Peek().Some? ==> Hs(s.Peek().value) == ItemAt(p, ServerSlot(p, s))
    ensures Transcript(p, ServerSlot(p, s)) == s.transcript
  {
  }

  lemma {:induction false} EarlyStep(p: Params, s: Server, retry: bool)
    requires Ready(p, s) && ServerEarly(s.state)
    ensures StepOk(p, s, Do(p, s, retry))
  {
    var r := Do(p, s, retry);
    HelloSlot(p, ServerSlot(p, s));
    Front(p, s);
    if r.wait.WaitMessage? {
      Waiting(p, s, r);
    } else if s.state.SelectParameters? && r.wait.WaitOk? {
      TakenStep(p, s, r, ServerSlot(p, s), ServerSlot(p, r));
    } else {
      EarlyMove(p, s, r);
    }
  }

  lemma HelloSlot(p: Params, b: nat)
    requires b == 0
    ensures ClientSlotAt(p, b) && ItemAt(p, b) == Hs(ClientHello)
  {
  }

  // Before the parameters are known nothing is sent or taken.
  lemma {:induction false} EarlyMove(p: Params, s: Server, r: Server)
    requires Ready(p, s) && ServerEarly(s.state) && ServerEarly(r.state)
    requires r == s.Goto(r.state) || r == s.Await(WaitCallback)
    ensures StepOk(p, s, r)
  {
    QuietMove(p, ServerSlot(p, s), ServerSlot(p, s), s, r, false);
  }

  lemma {:induction false} ServerHelloStep(p: Params, s: Server, retry: bool)
    requires Ready(p, s) && s.state.SendServerHello?
    ensures StepOk(p, s, DoSendServerFlight(p, s, p.neg, retry))
  {
    var r := DoSendServerFlight(p, s, p.neg, retry);
    HelloItems(p);
    assert Fits(p, r);
    assert ServerSlot(p, r) == if p.neg.resumed then 7 else 2;
  }

  lemma {:induction false} HelloItems(p: Params)
    requires p.Agreed()
    ensures var a := if p.neg.resumed then 7 else 2;
            Items(p, 1, a) == [Hs(ServerHello(p.neg))] && Transcript(p, a) == Transcript(p, 1) + [ServerHello(p.neg)]
  {
    OneSlot(p, 1);
    if p.neg.resumed {
      NothingBetween(p, 2, 7);
      ItemsSplit(p, 1, 2, 7);
    }
  }

  lemma {:induction false} CertificateStep(p: Params, s: Server, retry: bool)
    requires Ready(p, s) && s.state.SendServerCertificate?
    ensures StepOk(p, s, DoSendServerFlight(p, s, p.neg, retry))
  {
    var r := DoSendServerFlight(p, s, p.neg, retry);
    OneSlot(p, 2);
    OneSlot(p, 3);
    ItemsSplit(p, 2, 3, 4);
    if !p.neg.certAuth {
      QuietStep(p, s, r, SendServerKeyExchange);
    } else if !p.neg.status {
      assert Transcript(p, 4) == Transcript(p, 3);
      assert r.flight == s.flight + [Hs(Certificate(false))];
    } else {
      assert r.flight == s.flight + ([Hs(Certificate(false))] + [Hs(CertificateStatus)]);
    }
  }

  lemma {:induction false} KeyExchangeStep(p: Params, s: Server, retry: bool)
    requires Ready(p, s) && s.state.SendServerKeyExchange?
    ensures StepOk(p, s, DoSendServerFlight(p, s, p.neg, retry))
  {
    var r := DoSendServerFlight(p, s, p.neg, retry);
    OneSlot(p, 4);
    if !p.SendsKeyExchange() {
      QuietStep(p, s, r, SendServerHelloDone);
    } else if r.wait.WaitCallback? {
      Retried(p, s, r);
    }
  }

  lemma {:induction false} HelloDoneStep(p: Params, s: Server, retry: bool)
    requires Ready(p, s) && s.state.SendServerHelloDone?
    ensures StepOk(p, s, DoSendServerFlight(p, s, p.neg, retry))
  {
    var r := DoSendServerFlight(p, s, p.neg, retry);
    var b := ServerSlot(p, s);
    Slots(p, s);
    Slots(p, r);
    HelloDoneSlots(p, b);
    HelloDoneSent(p, b, s.SendIf(p.certReq, CertificateRequest).Send(ServerHelloDone), s);
  }

  // CertificateRequest, if there is one, and ServerHelloDone, and then the client's turn.
  ghost predicate HelloDoneAt(p: Params, b: nat) {
    && Present(p, b) == p.certReq && ItemAt(p, b) == Hs(CertificateRequest)
    && Present(p, b + 1) && ItemAt(p, b + 1) == Hs(ServerHelloDone)
    && Absent(p, b + 2, b + 5) && Owned(p, b, b + 5, false)
  }

  lemma HelloDoneSlots(p: Params, b: nat)
    requires b == 5 && !p.neg.resumed
    ensures HelloDoneAt(p, b)
  {
  }

  lemma {:induction false} HelloDoneSent(p: Params, b: nat, x: Server, s: Server)
    requires HelloDoneAt(p, b) && s.transcript == Transcript(p, b)
    requires x == s.SendIf(p.certReq, CertificateRequest).Send(ServerHelloDone)
    ensures x.transcript == Transcript(p, b + 5) && x.flight == s.flight + Items(p, b, b + 5)
  {
    HelloDoneItems(p, b);
    assert s.flight + (if p.certReq then [Hs(CertificateRequest)] else []) + [Hs(ServerHelloDone)]
           == s.flight + Items(p, b, b + 5);
  }

  lemma {:induction false} HelloDoneItems(p: Params, b: nat)
    requires HelloDoneAt(p, b)
    ensures Items(p, b, b + 5) == (if p.certReq then [Hs(CertificateRequest)] else []) + [Hs(ServerHelloDone)]
    ensures Transcript(p, b + 5)
            == Transcript(p, b) + (if p.certReq then [CertificateRequest] else []) + [ServerHelloDone]
  {
    OneSlot(p, b);
    OneSlot(p, b + 1);
    NothingBetween(p, b + 2, b + 5);
    ItemsSplit(p, b, b + 1, b + 5);
    ItemsSplit(p, b + 1, b + 2, b + 5);
  }

  // The server's last flight: a ticket, ChangeCipherSpec and Finished, from slot a on.
  ghost predicate LastFlightAt(p: Params, a: nat) {
    && Present(p, a) == p.neg.ticket && Present(p, a + 1) && Present(p, a + 2)
    && ItemAt(p, a) == Hs(NewSessionTicket) && ItemAt(p, a + 1) == Ccs
    && ItemAt(p, a + 2) == Hs(Finished(true, Transcript(p, a + 2)))
    && Owned(p, a, a + 3, false)
  }

  lemma LastFlightSlots(p: Params)
    ensures LastFlightAt(p, if p.neg.resumed then 7 else 17)
  {
  }

  lemma {:induction false} LastFlightTranscript(p: Params, a: nat)
    requires LastFlightAt(p, a)
    ensures Transcript(p, a + 2) == if p.neg.ticket then Transcript(p, a) + [NewSessionTicket] else Transcript(p, a)
    ensures Transcript(p, a + 3) == Transcript(p, a + 2) + [Finished(true, Transcript(p, a + 2))]
  {
  }

  lemma {:induction false} LastFlightItems(p: Params, a: nat, before: seq<Item>)
    requires LastFlightAt(p, a)
    ensures before + Items(p, a, a + 3)
         == before + (if p.neg.ticket then [Hs(NewSessionTicket)] else []) + [Ccs]
             + [Hs(Finished(true, Transcript(p, a + 2)))]
  {
    OneSlot(p, a);
    OneSlot(p, a + 1);
    OneSlot(p, a + 2);
    ThreeParts(p, a, before);
  }

  lemma {:induction false} LastFlightSent(p: Params, s: Server, a: nat, x: Server)
    requires LastFlightAt(p, a) && s.transcript == Transcript(p, a)
    requires x == s.SendIf(p.neg.ticket, NewSessionTicket).SendCcs()
    ensures x.transcript == Transcript(p, a + 2) && x.inbox == s.inbox
    ensures x.Send(Finished(true, x.transcript)).transcript == Transcript(p, a + 3)
    ensures x.Send(Finished(true, x.transcript)).flight == s.flight + Items(p, a, a + 3)
  {
    LastFlightTranscript(p, a);
    LastFlightItems(p, a, s.flight);
    assert x.flight == s.flight + (if p.neg.ticket then [Hs(NewSessionTicket)] else []) + [Ccs];
  }

  // In a resumption the slots of the client's certificate are passed over.
  lemma {:induction false} SkipToClient(p: Params, before: seq<Item>)
    requires p.Agreed() && p.neg.resumed
    ensures before + Items(p, 7, 10) == before + Items(p, 7, 13) && Transcript(p, 13) == Transcript(p, 10)
    ensures Owned(p, 10, 13, false)
  {
    ItemsSplit(p, 7, 10, 13);
    NothingBetween(p, 10, 13);
  }

  lemma {:induction false} ResumedFinished(p: Params, s: Server, y: Server, r: Server)
    requires p.Agreed() && s.state.SendServerFinished? && p.neg.resumed
    requires r == y.Goto(ReadChangeCipherSpec).Await(WaitFlush)
    requires s.neg == Some(p.neg) && s.certReq == p.certReq && s.peerCert == (p.certReq && p.hasCert)
    requires y.transcript == Transcript(p, 10) && y.flight == s.flight + Items(p, 7, 10) && Owned(p, 7, 10, false)
    requires y.inbox == s.inbox && y.neg == s.neg && y.certReq == s.certReq && y.peerCert == s.peerCert
    ensures ServerOk(p, r) && Sent(p, 7, 13, s, r, false)
  {
    SkipToClient(p, s.flight);
  }

  lemma FullFinished(p: Params, s: Server, y: Server, r: Server, a: nat)
    requires a == 17 && s.state.SendServerFinished? && !p.neg.resumed
    requires r == y.Goto(FinishServerHandshake).Await(WaitFlush)
    requires s.neg == Some(p.neg) && s.certReq == p.certReq && s.peerCert == (p.certReq && p.hasCert)
    requires y.transcript == Transcript(p, a + 3) && y.flight == s.flight + Items(p, a, a + 3)
    requires Owned(p, a, a + 3, false)
    requires y.inbox == s.inbox && y.neg == s.neg && y.certReq == s.certReq && y.peerCert == s.peerCert
    ensures ServerOk(p, r) && Sent(p, a, a + 3, s, r, false)
  {
  }

  lemma {:induction false} ResumedFinishedStep(p: Params, s: Server, r: Server)
    requires p.Agreed() && ServerOk(p, s) && s.state.SendServerFinished? && p.neg.resumed
    requires var x := s.SendIf(p.neg.ticket, NewSessionTicket).SendCcs();
             r == x.Send(Finished(true, x.transcript)).Goto(ReadChangeCipherSpec).Await(WaitFlush)
    ensures StepOk(p, s, r)
  {
    var x := s.SendIf(p.neg.ticket, NewSessionTicket).SendCcs();
    LastFlightSlots(p);
    LastFlightSent(p, s, 7, x);
    ResumedFinished(p, s, x.Send(Finished(true, x.transcript)), r);
  }

  lemma {:induction false} FullFinishedStep(p: Params, s: Server, r: Server, a: nat)
    requires a == 17 && s.state.SendServerFinished? && !p.neg.resumed && s.transcript == Transcript(p, a)
    requires s.neg == Some(p.neg) && s.certReq == p.certReq && s.peerCert == (p.certReq && p.hasCert)
    requires var x := s.SendIf(p.neg.ticket, NewSessionTicket).SendCcs();
             r == x.Send(Finished(true, x.transcript)).Goto(FinishServerHandshake).Await(WaitFlush)
    ensures StepOk(p, s, r)
  {
    var x := s.SendIf(p.neg.ticket, NewSessionTicket).SendCcs();
    LastFlightSlots(p);
    LastFlightSent(p, s, a, x);
    FullFinished(p, s, x.Send(Finished(true, x.transcript)), r, a);
  }

  lemma {:induction false} FinishedStep(p: Params, s: Server, retry: bool)
    requires Ready(p, s) && s.state.SendServerFinished?
    ensures StepOk(p, s, DoSendServerFlight(p, s, p.neg, retry))
  {
    var r := DoSendServerFlight(p, s, p.neg, retry);
    if p.neg.resumed {
      ResumedFinishedStep(p, s, r);
    } else {
      FullFinishedStep(p, s, r, ServerSlot(p, s));
    }
  }

  lemma {:induction false} ServerFlightStep(p: Params, s: Server, retry: bool)
    requires Ready(p, s) && SendsServerFlight(s.state)
    ensures StepOk(p, s, DoSendServerFlight(p, s, p.neg, retry))
  {
    match s.state {
      case SendServerHello => ServerHelloStep(p, s, retry);
      case SendServerCertificate => CertificateStep(p, s, retry);
      case SendServerKeyExchange => KeyExchangeStep(p, s, retry);
      case SendServerHelloDone => HelloDoneStep(p, s, retry);
      case SendServerFinished => FinishedStep(p, s, retry);
    }
  }

  lemma {:induction false} ClientCertificateStep(p: Params, s: Server, retry: bool)
    requires Ready(p, s) && s.state.ReadClientCertificate?
    ensures StepOk(p, s, DoReadClientFlight(p, s, retry))
  {
    var r := DoReadClientFlight(p, s, retry);
    if !p.certReq {
      QuietStep(p, s, r, VerifyClientCertificate);
    } else {
      Front(p, s);
      if s.Peek().None? {
        Waiting(p, s, r);
      } else {
        TakenStep(p, s, r, ServerSlot(p, s), ServerSlot(p, r));
      }
    }
  }

  lemma KeyExchangeSlot(p: Params, b: nat)
    requires b == 11 && !p.neg.resumed
    ensures ClientSlotAt(p, b) && ItemAt(p, b) == Hs(ClientKeyExchange)
  {
  }

  lemma {:induction false} ClientKeyExchangeStep(p: Params, s: Server, retry: bool)
    requires Ready(p, s) && s.state.ReadClientKeyExchange?
    ensures StepOk(p, s, DoReadClientFlight(p, s, retry))
  {
    var r := DoReadClientFlight(p, s, retry);
    Slots(p, s);
    Slots(p, r);
    KeyExchangeSlot(p, ServerSlot(p, s));
    Front(p, s);
    if s.Peek().None? {
      Waiting(p, s, r);
    } else if retry {
      Retried(p, s, r);
    } else {
      TakenStep(p, s, r, ServerSlot(p, s), ServerSlot(p, r));
    }
  }

  lemma VerifySlot(p: Params, b: nat)
    requires b == 12 && p.certReq && p.hasCert
    ensures ClientSlotAt(p, b) && ItemAt(p, b) == Hs(CertificateVerify(Transcript(p, b)))
  {
  }

  lemma {:induction false} ClientVerifyStep(p: Params, s: Server, retry: bool)
    requires Ready(p, s) && s.state.ReadClientCertificateVerify?
    ensures StepOk(p, s, DoReadClientFlight(p, s, retry))
  {
    var r := DoReadClientFlight(p, s, retry);
    Slots(p, s);
    Slots(p, r);
    if !s.peerCert {
      QuietStep(p, s, r, ReadChangeCipherSpec);
    } else {
      VerifySlot(p, ServerSlot(p, s));
      Front(p, s);
      if s.Peek().None? {
        Waiting(p, s, r);
      } else {
        TakenStep(p, s, r, ServerSlot(p, s), ServerSlot(p, r));
      }
    }
  }

  lemma {:induction false} AwaitCcsStep(p: Params, s: Server, r: Server)
    requires Ready(p, s) && s.state.ReadChangeCipherSpec? && r == s.Goto(ProcessChangeCipherSpec).Await(WaitCcs)
    ensures StepOk(p, s, r)
  {
    CcsSlot(p, ServerSlot(p, s));
    AwaitCcsAt(p, s, r, ServerSlot(p, s));
  }

  lemma {:induction false} AwaitCcsAt(p: Params, s: Server, r: Server, b: nat)
    requires s.state.ReadChangeCipherSpec? && r == s.Goto(ProcessChangeCipherSpec).Await(WaitCcs)
    requires SideOk(p, b, s, false) && s.wait.WaitOk? && ServerOk(p, s) && b == ServerSlot(p, s)
    requires PeerIsNext(p, b, false) && Next(p, b) == b && ItemAt(p, b).Ccs?
    ensures StepOk(p, s, r)
  {
    assert SideOk(p, b, r, false) && ServerSlot(p, r) == b;
    QuietMove(p, b, b, s, r, false);
  }

  lemma CcsSlot(p: Params, b: nat)
    requires b == 13
    ensures PeerIsNext(p, b, false) && Next(p, b) == b && ItemAt(p, b).Ccs?
  {
  }

  lemma {:induction false} ClientFlightStep(p: Params, s: Server, retry: bool)
    requires Ready(p, s) && ReadsClientFlight(s.state)
    ensures StepOk(p, s, DoReadClientFlight(p, s, retry))
  {
    var r := DoReadClientFlight(p, s, retry);
    match s.state {
      case ReadClientCertificate => ClientCertificateStep(p, s, retry);
      case VerifyClientCertificate =>
        if r.wait.WaitCallback? {
          Retried(p, s, r);
        } else {
          QuietStep(p, s, r, ReadClientKeyExchange);
        }
      case ReadClientKeyExchange => ClientKeyExchangeStep(p, s, retry);
      case ReadClientCertificateVerify => ClientVerifyStep(p, s, retry);
      case ReadChangeCipherSpec => AwaitCcsStep(p, s, r);
    }
  }

  // NextProto and ChannelID: read when negotiated, and then they are there.
  lemma {:induction false} OptionalStep(p: Params, s: Server, r: Server, next: State)
    requires Ready(p, s) && Fits(p, s.Goto(next)) && ServerSlot(p, s.Goto(next)) == ServerSlot(p, s) + 1
    requires !s.state.ProcessChangeCipherSpec?
    requires s.flight == []
    requires if !Present(p, ServerSlot(p, s)) then r == s.Goto(next)
             else ClientSlotAt(p, ServerSlot(p, s))
                  && r == if s.Peek().None? then s.Await(WaitMessage) else s.Receive().Goto(next)
    ensures StepOk(p, s, r)
  {
    if !Present(p, ServerSlot(p, s)) {
      QuietStep(p, s, r, next);
    } else if s.Peek().None? {
      Waiting(p, s, r);
    } else {
      TakenStep(p, s, r, ServerSlot(p, s), ServerSlot(p, r));
    }
  }

  lemma NextProtoSlot(p: Params, b: nat)
    requires b == 14
    ensures Present(p, b) == p.neg.npn && ByClient(b) && ItemAt(p, b) == Hs(NextProto)
  {
  }

  lemma ChannelIdSlot(p: Params, b: nat)
    requires b == 15
    ensures Present(p, b) == p.neg.channelId && ByClient(b) && ItemAt(p, b) == Hs(ChannelId(Transcript(p, b)))
  {
  }

  lemma {:induction false} NextProtoStep(p: Params, s: Server)
    requires Ready(p, s) && s.state.ReadNextProto?
    ensures StepOk(p, s, DoFinish(s, p.neg))
  {
    Slots(p, s);
    Slots(p, s.Goto(ReadChannelId));
    NextProtoSlot(p, ServerSlot(p, s));
    if p.neg.npn {
      Front(p, s);
    }
    OptionalStep(p, s, DoFinish(s, p.neg), ReadChannelId);
  }

  lemma {:induction false} ChannelIdStep(p: Params, s: Server)
    requires Ready(p, s) && s.state.ReadChannelId?
    ensures StepOk(p, s, DoFinish(s, p.neg))
  {
    Slots(p, s);
    Slots(p, s.Goto(ReadClientFinished));
    ChannelIdSlot(p, ServerSlot(p, s));
    if p.neg.channelId {
      Front(p, s);
    }
    OptionalStep(p, s, DoFinish(s, p.neg), ReadClientFinished);
  }

  lemma FinishedSlot(p: Params, b: nat)
    requires b == 16
    ensures ClientSlotAt(p, b) && ItemAt(p, b) == Hs(Finished(false, Transcript(p, b)))
  {
  }

  lemma {:induction false} FinishedOk(p: Params, s: Server, b: nat)
    requires Ready(p, s) && b == ServerSlot(p, s) && s.state.ReadClientFinished? && s.Peek().Some?
    ensures s.Peek().value == Finished(false, s.transcript) && ClientSlotAt(p, b)
  {
    FinishedSlot(p, b);
    Front(p, s);
  }

  lemma {:induction false} ResumedFinishedTaken(p: Params, s: Server, r: Server, b: nat)
    requires Ready(p, s) && s.state.ReadClientFinished? && s.Peek().Some? && b == ServerSlot(p, s)
    requires ClientSlotAt(p, b) && p.neg.resumed
    requires r == s.Receive().Goto(FinishServerHandshake)
    ensures StepOk(p, s, r)
  {
    assert Absent(p, 17, SLOTS);
    TakenStep(p, s, r, b, SLOTS);
  }

  lemma {:induction false} FullFinishedTaken(p: Params, s: Server, r: Server, b: nat)
    requires Ready(p, s) && s.state.ReadClientFinished? && s.Peek().Some? && b == ServerSlot(p, s)
    requires ClientSlotAt(p, b) && !p.neg.resumed
    requires r == s.Receive().Goto(SendServerFinished)
    ensures StepOk(p, s, r)
  {
    Slots(p, s);
    Slots(p, r);
    TakenStep(p, s, r, b, ServerSlot(p, r));
  }

  lemma {:induction false} ClientFinishedStep(p: Params, s: Server)
    requires Ready(p, s) && s.state.ReadClientFinished?
    ensures StepOk(p, s, DoFinish(s, p.neg))
  {
    var r := DoFinish(s, p.neg);
    var b := ServerSlot(p, s);
    FinishedSlot(p, b);
    if s.Peek().None? {
      Waiting(p, s, r);
    } else {
      FinishedOk(p, s, b);
      if p.neg.resumed {
        ResumedFinishedTaken(p, s, r, b);
      } else {
        FullFinishedTaken(p, s, r, b);
      }
    }
  }

  lemma {:induction false} CipherChangedStep(p: Params, s: Server)
    requires Ready(p, s) && s.state.ProcessChangeCipherSpec?
    ensures StepOk(p, s, DoFinish(s, p.neg))
  {
    var r := DoFinish(s, p.neg);
    QuietStep(p, s, r, ReadNextProto);
  }

  lemma {:induction false} HandshakeFinishedStep(p: Params, s: Server)
    requires Ready(p, s) && s.state.FinishServerHandshake?
    ensures StepOk(p, s, DoFinish(s, p.neg))
  {
    Slots(p, s);
    Slots(p, s.Goto(Done));
    QuietStep(p, s, s.Goto(Done), Done);
  }

  lemma {:induction false} FinishStep(p: Params, s: Server)
    requires Ready(p, s) && Finishes(s.state)
    ensures StepOk(p, s, DoFinish(s, p.neg))
  {
    match s.state {
      case ProcessChangeCipherSpec => CipherChangedStep(p, s);
      case ReadNextProto => NextProtoStep(p, s);
      case ReadChannelId => ChannelIdStep(p, s);
      case ReadClientFinished => ClientFinishedStep(p, s);
      case FinishServerHandshake => HandshakeFinishedStep(p, s);
    }
  }

  lemma {:induction false} ServerStep(p: Params, s: Server, retry: bool)
    requires Ready(p, s) && s.state != Done
    ensures StepOk(p, s, Do(p, s, retry))
  {
    if ServerEarly(s.state) {
      EarlyStep(p, s, retry);
    } else if SendsServerFlight(s.state) {
      ServerFlightStep(p, s, retry);
    } else if ReadsClientFlight(s.state) {
      ClientFlightStep(p, s, retry);
    } else {
      FinishStep(p, s);
    }
  }
}
