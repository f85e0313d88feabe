// The other half: every message sequence the protocol allows is taken to the end, so that with what
// a side refuses it is known exactly which peers it finishes a handshake with.

module HandshakeAcceptance {
  import opened Wire
  import opened HandshakeScript
  import opened HandshakeRefusal

  lemma {:induction false} RunsJoin<S>(step: Transition<S>, t: Trial<S>, done: S, a: seq<Event>, mid: Trial<S>,
                                       b: seq<Event>, t': Trial<S>)
    requires Reaches(step, t, done, a, mid) && Reaches(step, mid, done, b, t')
    ensures Reaches(step, t, done, a + b, t')
    decreases |a|
  {
    if a == [] {
      assert a + b == b;
    } else {
      assert (a + b)[0] == a[0] && (a + b)[1..] == a[1..] + b;
      RunsJoin(step, Apply(step, t, done, a[0]), done, a[1..], mid, b, t');
    }
  }

  // A transition whose callback is ready, and what it waits for then, as far as it is there.
  function Settle<S>(x: Peer<S>): Peer<S> {
    if x.wait.WaitFlush? then x.(flight := [], wait := WaitOk)
    else if x.wait.WaitCcs? && !x.Blocked() then x.Resolve()
    else x
  }

  lemma Settled<S>(x: Peer<S>)
    requires Settle(x).wait.WaitOk?
    ensures x.wait.WaitOk? || x.wait.WaitFlush? || x.wait.WaitCcs?
    ensures Settle(x).state == x.state && Settle(x).neg == x.neg
  {
  }

  function Events<S>(x: Peer<S>): seq<Event> {
    [Does(false)] + if x.wait.WaitFlush? then [Flushes] else if x.wait.WaitCcs? && !x.Blocked() then [Resolves] else []
  }

  lemma {:induction false} RoundRuns<S>(step: Transition<S>, t: Trial<S>, done: S)
    requires t.x.wait.WaitOk? && t.x.state != done
    ensures Reaches(step, t, done, Events(step(t.x, false)), t.(x := Settle(step(t.x, false))))
  {
    var x, t' := step(t.x, false), t.(x := Settle(step(t.x, false)));
    var t1 := t.(x := x);
    var events := Events(x);
    assert events[0] == Does(false) && Apply(step, t, done, events[0]) == t1;
    var more := events[1..];
    if more != [] {
      assert more[1..] == [] && Apply(step, t1, done, more[0]) == t';
      assert Reaches(step, t', done, [], t');
    }
    assert Reaches(step, t1, done, more, t');
  }

  lemma Front<T>(b: bool, m: T, rest: seq<T>)
    ensures !b ==> Maybe(b, m) + rest == rest
    ensures b ==> (Maybe(b, m) + rest)[0] == m && (Maybe(b, m) + rest)[1..] == rest
  {
  }

  // A message at the front that may be left out.
  function Took<S>(x: Peer<S>, b: bool, m: Msg, rest: seq<Item>): Peer<S> {
    x.(transcript := x.transcript + Maybe(b, m), inbox := rest)
  }

  lemma TakesFront<S>(x: Peer<S>, b: bool, m: Msg, rest: seq<Item>)
    requires x.inbox == Maybe(b, Hs(m)) + rest
    ensures b ==> x.Peek() == Some(m)
    ensures (if b then x.Receive() else x) == Took(x, b, m, rest)
  {
    Front(b, Hs(m), rest);
    Skipping(x.transcript, m);
  }

  lemma Regrouped<T>(a: seq<T>, b: seq<T>, c: seq<T>)
    ensures a + b + c == a + (b + c)
  {
  }

  lemma NestedEnd<T>(h: seq<T>, a: seq<T>, b: seq<T>, c: seq<T>, z: seq<T>)
    ensures h + a + b + c + z == h + (a + (b + (c + z)))
  {
  }

  lemma NestedStart<T>(h: seq<T>, a: seq<T>, b: seq<T>, c: seq<T>, z: seq<T>)
    ensures h + (a + b + c) + z == h + (a + (b + (c + z)))
  {
  }

  lemma Nested<T>(h: seq<T>, a: seq<T>, b: seq<T>, c: seq<T>, d: seq<T>, e: seq<T>, z: seq<T>)
    ensures h + (a + b + c + d + e) + z == h + (a + (b + (c + (d + (e + z)))))
  {
    var y := d + (e + z);
    assert a + b + c + d + e + z == a + b + c + y;
    assert a + b + c + y == a + (b + (c + y));
  }
}

module HandshakeClientAcceptance {
  import opened Wire
  import opened HandshakeScript
  import opened HandshakeClient
  import opened HandshakeRefusal
  import opened HandshakeClientRefusal
  import A = HandshakeAcceptance

  // What is still to come from the server, part by part.
  function FromDone(f: Told, hasCert: bool): seq<Item> {
    [Hs(ServerHelloDone)] + FromServerEnd(f, hasCert)
  }

  function FromRequest(f: Told, hasCert: bool): seq<Item> {
    Maybe(f.request, Hs(CertificateRequest)) + FromDone(f, hasCert)
  }

  function FromExchange(f: Told, hasCert: bool): seq<Item> {
    Maybe(f.exchange, Hs(ServerKeyExchange)) + FromRequest(f, hasCert)
  }

  function FromStatus(f: Told, hasCert: bool): seq<Item> {
    Maybe(f.status, Hs(CertificateStatus)) + FromExchange(f, hasCert)
  }

  function FromCertificate(f: Told, hasCert: bool): seq<Item> {
    Maybe(f.neg.certAuth, Hs(Certificate(false))) + FromStatus(f, hasCert)
  }

  function FromHello(f: Told, hasCert: bool): seq<Item> {
    [Hs(ServerHello(f.neg))] + if f.neg.resumed then FromServerEnd(f, hasCert) else FromCertificate(f, hasCert)
  }

  function LastItem(f: Told, hasCert: bool): Item {
    Hs(Finished(true, WithTicket(f.neg, BeforeServerEnd(f, hasCert))))
  }

  lemma {:induction false} AllIsFromHello(f: Told, hasCert: bool)
    ensures FromServer(f) + FromServerEnd(f, hasCert) == FromHello(f, hasCert)
  {
    var hello, end := [Hs(ServerHello(f.neg))], FromServerEnd(f, hasCert);
    if f.neg.resumed {
      assert hello + [] + end == hello + end;
    } else {
      A.Nested(hello, Maybe(f.neg.certAuth, Hs(Certificate(false))), Maybe(f.status, Hs(CertificateStatus)),
               Maybe(f.exchange, Hs(ServerKeyExchange)), Maybe(f.request, Hs(CertificateRequest)),
               [Hs(ServerHelloDone)], end);
    }
  }

  // What stands in front when the optional messages are left out.
  lemma {:induction false} FrontOfRequest(f: Told, hasCert: bool)
    ensures var rest := FromRequest(f, hasCert);
            rest != [] && rest[0] == Hs(if f.request then CertificateRequest else ServerHelloDone)
  {
    A.Front(f.request, Hs(CertificateRequest), FromDone(f, hasCert));
  }

  lemma {:induction false} FrontOfExchange(f: Told, hasCert: bool)
    ensures var rest := FromExchange(f, hasCert);
            rest != [] && rest[0] == Hs(if f.exchange then ServerKeyExchange
                                        else if f.request then CertificateRequest else ServerHelloDone)
  {
    A.Front(f.exchange, Hs(ServerKeyExchange), FromRequest(f, hasCert));
    FrontOfRequest(f, hasCert);
  }

  function FromCcs(f: Told, hasCert: bool): seq<Item> {
    [Ccs] + [LastItem(f, hasCert)]
  }

  lemma {:induction false} EndIsFromTicket(f: Told, hasCert: bool)
    ensures FromServerEnd(f, hasCert) == Maybe(f.neg.ticket, Hs(NewSessionTicket)) + FromCcs(f, hasCert)
  {
    A.Regrouped(Maybe(f.neg.ticket, Hs(NewSessionTicket)), [Ccs], [LastItem(f, hasCert)]);
  }

  function RestAt(f: Told, hasCert: bool, s: State): seq<Item> {
    match s
    case StartConnect => FromHello(f, hasCert)
    case EnterEarlyData => FromHello(f, hasCert)
    case ReadServerHello => FromHello(f, hasCert)
    case ReadServerCertificate => FromCertificate(f, hasCert)
    case ReadCertificateStatus => FromStatus(f, hasCert)
    case VerifyServerCertificate => FromExchange(f, hasCert)
    case ReadServerKeyExchange => FromExchange(f, hasCert)
    case ReadCertificateRequest => FromRequest(f, hasCert)
    case ReadServerHelloDone => FromDone(f, hasCert)
    case SendClientCertificate => FromServerEnd(f, hasCert)
    case SendClientKeyExchange => FromServerEnd(f, hasCert)
    case SendClientCertificateVerify => FromServerEnd(f, hasCert)
    case SendClientFinished => if f.neg.resumed then [] else FromServerEnd(f, hasCert)
    case FinishFlight => if f.neg.resumed then [] else FromServerEnd(f, hasCert)
    case ReadSessionTicket => FromServerEnd(f, hasCert)
    case ProcessChangeCipherSpec => [LastItem(f, hasCert)]
    case ReadServerFinished => [LastItem(f, hasCert)]
    case FinishClientHandshake => []
    case Done => []
  }

  // The client is on its way through this handshake, with the rest of it there to be read.
  ghost predicate OnTheWay(p: Params, c: Client, f: Told) {
    && c.wait.WaitOk?
    && c.transcript == TranscriptAt(f, p.hasCert, c.state) && c.inbox == RestAt(f, p.hasCert, c.state)
    && (!Early(c.state) ==> c.neg == Some(f.neg))
    && c.certReq == (f.request && !BeforeRequest(c.state))
    && (OnlyFull(c.state) ==> !f.neg.resumed)
  }

  function Next(p: Params, c: Client): Client {
    A.Settle(Do(p, c, false))
  }

  lemma {:induction false} EarlyGoesOn(p: Params, c: Client, f: Told)
    requires Allowed(f) && OnTheWay(p, c, f) && (c.state.StartConnect? || c.state.EnterEarlyData?)
    ensures OnTheWay(p, Next(p, c), f)
  {
  }

  lemma {:induction false} HelloGoesOn(p: Params, c: Client, f: Told)
    requires Allowed(f) && OnTheWay(p, c, f) && c.state.ReadServerHello?
    ensures OnTheWay(p, Next(p, c), f)
  {
    var rest := if f.neg.resumed then FromServerEnd(f, p.hasCert) else FromCertificate(f, p.hasCert);
    A.Front(true, Hs(ServerHello(f.neg)), rest);
    assert c.inbox[0] == Hs(ServerHello(f.neg)) && c.inbox[1..] == rest;
    assert [ClientHello] + [ServerHello(f.neg)] == Hellos(f);
  }

  lemma {:induction false} CertificateGoesOn(p: Params, c: Client, f: Told)
    requires Allowed(f) && OnTheWay(p, c, f) && c.state.ReadServerCertificate?
    ensures OnTheWay(p, Next(p, c), f)
  {
    Skipping(c.transcript, Certificate(false));
    A.Front(f.neg.certAuth, Hs(Certificate(false)), FromStatus(f, p.hasCert));
  }

  lemma {:induction false} AfterStatus(p: Params, c: Client, f: Told)
    requires c.state.ReadCertificateStatus? && c.wait.WaitOk? && c.neg == Some(f.neg) && c.inbox != [] && c.inbox[0].Hs?
    requires c.inbox[0] == Hs(CertificateStatus) <==> f.status
    requires f.status ==> f.neg.status
    ensures Next(p, c) == (if f.status then c.Receive() else c).Goto(VerifyServerCertificate)
  {
  }

  lemma {:induction false} AtVerify(p: Params, r: Client, f: Told)
    requires r.state.VerifyServerCertificate? && r.wait.WaitOk? && r.neg == Some(f.neg) && !r.certReq && !f.neg.resumed
    requires r.transcript == WithStatus(f) && r.inbox == FromExchange(f, p.hasCert)
    ensures OnTheWay(p, r, f)
  {
  }

  lemma {:induction false} StatusGoesOn(p: Params, c: Client, f: Told)
    requires Allowed(f) && OnTheWay(p, c, f) && c.state.ReadCertificateStatus?
    ensures OnTheWay(p, Next(p, c), f)
  {
    A.TakesFront(c, f.status, CertificateStatus, FromExchange(f, p.hasCert));
    FrontOfExchange(f, p.hasCert);
    AfterStatus(p, c, f);
    AtVerify(p, A.Took(c, f.status, CertificateStatus, FromExchange(f, p.hasCert)).Goto(VerifyServerCertificate), f);
  }

  lemma {:induction false} AfterExchange(p: Params, c: Client, f: Told)
    requires c.state.ReadServerKeyExchange? && c.wait.WaitOk? && c.neg == Some(f.neg) && c.inbox != [] && c.inbox[0].Hs?
    requires c.inbox[0] == Hs(ServerKeyExchange) <==> f.exchange
    requires (f.neg.ecdhe ==> f.exchange) && (f.exchange && f.neg.certAuth ==> f.neg.ecdhe)
    ensures Next(p, c) == (if f.exchange then c.Receive() else c).Goto(ReadCertificateRequest)
  {
  }

  lemma {:induction false} ExchangeGoesOn(p: Params, c: Client, f: Told)
    requires Allowed(f) && OnTheWay(p, c, f) && c.state.ReadServerKeyExchange?
    ensures OnTheWay(p, Next(p, c), f)
  {
    A.TakesFront(c, f.exchange, ServerKeyExchange, FromRequest(f, p.hasCert));
    FrontOfRequest(f, p.hasCert);
    AfterExchange(p, c, f);
    AtRequest(p, A.Took(c, f.exchange, ServerKeyExchange, FromRequest(f, p.hasCert)).Goto(ReadCertificateRequest), f);
  }

  lemma {:induction false} AtRequest(p: Params, r: Client, f: Told)
    requires r.state.ReadCertificateRequest? && r.wait.WaitOk? && r.neg == Some(f.neg) && !r.certReq && !f.neg.resumed
    requires r.transcript == WithExchange(f) && r.inbox == FromRequest(f, p.hasCert)
    ensures OnTheWay(p, r, f)
  {
  }

  lemma {:induction false} RequestGoesOn(p: Params, c: Client, f: Told)
    requires Allowed(f) && OnTheWay(p, c, f) && c.state.ReadCertificateRequest?
    ensures OnTheWay(p, Next(p, c), f)
  {
    Skipping(c.transcript, CertificateRequest);
    A.Front(f.request, Hs(CertificateRequest), FromDone(f, p.hasCert));
    assert FromDone(f, p.hasCert)[0] == Hs(ServerHelloDone);
  }

  lemma {:induction false} HelloDoneGoesOn(p: Params, c: Client, f: Told)
    requires Allowed(f) && OnTheWay(p, c, f) && c.state.ReadServerHelloDone?
    ensures OnTheWay(p, Next(p, c), f)
  {
    A.Front(true, Hs(ServerHelloDone), FromServerEnd(f, p.hasCert));
  }

  lemma {:induction false} OwnCertificateGoesOn(p: Params, c: Client, f: Told)
    requires Allowed(f) && OnTheWay(p, c, f) && c.state.SendClientCertificate?
    ensures OnTheWay(p, Next(p, c), f)
  {
    Skipping(c.transcript, Certificate(!p.hasCert));
  }

  lemma {:induction false} OwnVerifyGoesOn(p: Params, c: Client, f: Told)
    requires Allowed(f) && OnTheWay(p, c, f) && c.state.SendClientCertificateVerify?
    ensures OnTheWay(p, Next(p, c), f)
  {
    Skipping(c.transcript, CertificateVerify(c.transcript));
  }

  lemma {:induction false} LastFlightGoesOn(p: Params, c: Client, f: Told)
    requires Allowed(f) && OnTheWay(p, c, f) && c.state.SendClientFinished?
    ensures OnTheWay(p, Next(p, c), f)
  {
    var a := c.SendCcs().SendIf(f.neg.npn, NextProto);
    var b := a.SendIf(f.neg.channelId, ChannelId(a.transcript));
    ClientEndIs(f.neg, c, a, b);
  }

  lemma {:induction false} FlushedGoesOn(p: Params, c: Client, f: Told)
    requires Allowed(f) && OnTheWay(p, c, f) && c.state.FinishFlight?
    ensures OnTheWay(p, Next(p, c), f)
  {
    assert c.transcript == if f.neg.resumed then Whole(f, p.hasCert) else BeforeServerEnd(f, p.hasCert);
  }

  lemma {:induction false} AfterTicket(p: Params, c: Client, f: Told, rest: seq<Item>)
    requires c.state.ReadSessionTicket? && c.wait.WaitOk? && c.neg == Some(f.neg)
    requires if f.neg.ticket then c.inbox != [] && c.inbox[0] == Hs(NewSessionTicket) && c.inbox[1..] == rest
             else c.inbox == rest
    requires rest != [] && rest[0] == Ccs
    ensures Next(p, c) == (if f.neg.ticket then c.Receive() else c).Goto(ProcessChangeCipherSpec).(inbox := rest[1..])
  {
  }

  lemma {:induction false} AtCcs(p: Params, r: Client, f: Told)
    requires r.state.ProcessChangeCipherSpec? && r.wait.WaitOk? && r.neg == Some(f.neg) && r.certReq == f.request
    requires r.transcript == WithTicket(f.neg, BeforeServerEnd(f, p.hasCert)) && r.inbox == [LastItem(f, p.hasCert)]
    ensures OnTheWay(p, r, f)
  {
  }

  lemma {:induction false} TicketGoesOn(p: Params, c: Client, f: Told)
    requires Allowed(f) && OnTheWay(p, c, f) && c.state.ReadSessionTicket?
    ensures OnTheWay(p, Next(p, c), f)
  {
    var rest := FromCcs(f, p.hasCert);
    EndIsFromTicket(f, p.hasCert);
    A.Front(f.neg.ticket, Hs(NewSessionTicket), rest);
    assert rest[0] == Ccs && rest[1..] == [LastItem(f, p.hasCert)];
    AfterTicket(p, c, f, rest);
    var r := (if f.neg.ticket then c.Receive() else c).Goto(ProcessChangeCipherSpec).(inbox := rest[1..]);
    assert r.transcript == WithTicket(f.neg, c.transcript) by {
      Skipping(c.transcript, NewSessionTicket);
    }
    AtCcs(p, r, f);
  }

  lemma {:induction false} ServerFinishedGoesOn(p: Params, c: Client, f: Told)
    requires Allowed(f) && OnTheWay(p, c, f) && c.state.ReadServerFinished?
    ensures OnTheWay(p, Next(p, c), f)
  {
    var m, next := Finished(true, c.transcript), if f.neg.resumed then SendClientFinished else FinishClientHandshake;
    assert c.inbox == [Hs(m)] + [];
    A.TakesFront(c, true, m, []);
    AfterFinished(p, A.Took(c, true, m, []).Goto(next), f);
  }

  lemma {:induction false} AfterFinished(p: Params, r: Client, f: Told)
    requires r.state == (if f.neg.resumed then SendClientFinished else FinishClientHandshake) && r.wait.WaitOk?
    requires r.transcript == ServerEnd(f.neg, BeforeServerEnd(f, p.hasCert)) && r.inbox == []
    requires r.neg == Some(f.neg) && r.certReq == f.request && Allowed(f)
    ensures OnTheWay(p, r, f)
  {
  }

  lemma {:induction false} CcsGoesOn(p: Params, c: Client, f: Told)
    requires Allowed(f) && OnTheWay(p, c, f) && c.state.ProcessChangeCipherSpec?
    ensures OnTheWay(p, Next(p, c), f)
  {
  }

  lemma {:induction false} ServerFlightGoesOn(p: Params, c: Client, f: Told)
    requires Allowed(f) && OnTheWay(p, c, f) && ReadsServerFlight(c.state)
    ensures OnTheWay(p, Next(p, c), f)
  {
    match c.state {
      case ReadServerCertificate => CertificateGoesOn(p, c, f);
      case ReadCertificateStatus => StatusGoesOn(p, c, f);
      case VerifyServerCertificate =>
      case ReadServerKeyExchange => ExchangeGoesOn(p, c, f);
      case ReadCertificateRequest => RequestGoesOn(p, c, f);
      case ReadServerHelloDone => HelloDoneGoesOn(p, c, f);
    }
  }

  lemma {:induction false} OwnFlightGoesOn(p: Params, c: Client, f: Told)
    requires Allowed(f) && OnTheWay(p, c, f) && SendsClientFlight(c.state)
    ensures OnTheWay(p, Next(p, c), f)
  {
    match c.state {
      case SendClientCertificate => OwnCertificateGoesOn(p, c, f);
      case SendClientKeyExchange =>
      case SendClientCertificateVerify => OwnVerifyGoesOn(p, c, f);
      case SendClientFinished => LastFlightGoesOn(p, c, f);
      case FinishFlight => FlushedGoesOn(p, c, f);
    }
  }

  lemma {:induction false} EndGoesOn(p: Params, c: Client, f: Told)
    requires Allowed(f) && OnTheWay(p, c, f) && c.state != Done
    requires c.state.ReadSessionTicket? || c.state.ReadServerFinished? || c.state.ProcessChangeCipherSpec?
             || c.state.FinishClientHandshake?
    ensures OnTheWay(p, Next(p, c), f)
  {
    match c.state {
      case ReadSessionTicket => TicketGoesOn(p, c, f);
      case ReadServerFinished => ServerFinishedGoesOn(p, c, f);
      case ProcessChangeCipherSpec => CcsGoesOn(p, c, f);
      case FinishClientHandshake =>
    }
  }

  lemma {:induction false} GoesOn(p: Params, c: Client, f: Told)
    requires Allowed(f) && OnTheWay(p, c, f) && c.state != Done
    ensures OnTheWay(p, Next(p, c), f)
  {
    if c.state.ReadServerHello? {
      HelloGoesOn(p, c, f);
    } else if Early(c.state) {
      EarlyGoesOn(p, c, f);
    } else if ReadsServerFlight(c.state) {
      ServerFlightGoesOn(p, c, f);
    } else if SendsClientFlight(c.state) {
      OwnFlightGoesOn(p, c, f);
    } else {
      EndGoesOn(p, c, f);
    }
  }

  lemma {:induction false} ComesCloser(p: Params, c: Client, f: Told)
    requires Allowed(f) && OnTheWay(p, c, f) && c.state != Done
    ensures OnTheWay(p, Next(p, c), f)
    ensures Rank(Next(p, c).state, Resumed(Next(p, c))) < Rank(c.state, Resumed(c))
  {
    GoesOn(p, c, f);
    OkDecreases(p, c, false);
    A.Settled(Do(p, c, false));
  }

  lemma {:induction false} RunsToTheEnd(p: Params, t: Trial<State>, f: Told)
    returns (events: seq<Event>, t': Trial<State>)
    requires Allowed(f) && OnTheWay(p, t.x, f)
    ensures Reaches((x, retry) => Do(p, x, retry), t, Done, events, t')
    ensures t'.x.state == Done && t'.arrived == t.arrived && OnTheWay(p, t'.x, f)
    decreases Rank(t.x.state, Resumed(t.x))
  {
    if t.x.state == Done {
      events, t' := [], t;
    } else {
      var step: Transition<State> := (x, retry) => Do(p, x, retry);
      ComesCloser(p, t.x, f);
      A.RoundRuns(step, t, Done);
      var more;
      more, t' := RunsToTheEnd(p, t.(x := Next(p, t.x)), f);
      events := A.Events(Do(p, t.x, false)) + more;
      A.RunsJoin(step, t, Done, A.Events(Do(p, t.x, false)), t.(x := Next(p, t.x)), more, t');
    }
  }

  // Whatever the protocol allows a server to choose, leave out or put in, the client comes to the end
  // with it.
  lemma {:induction false} AllowedIsFinished(p: Params, f: Told) returns (events: seq<Event>, t: Trial<State>)
    requires Allowed(f)
    ensures Reaches((x, retry) => Do(p, x, retry), Trial(START, []), Done, events, t)
    ensures t.x.state == Done && t.x.wait == WaitOk && t.x.inbox == [] && t.x.neg == Some(f.neg)
    ensures t.x.certReq == f.request && t.x.transcript == Whole(f, p.hasCert)
    ensures t.arrived == FromServer(f) + FromServerEnd(f, p.hasCert)
  {
    var step: Transition<State> := (x, retry) => Do(p, x, retry);
    var all := FromServer(f) + FromServerEnd(f, p.hasCert);
    var start, there := Trial(START, []), Trial(START.(inbox := all), all);
    AllIsFromHello(f, p.hasCert);
    assert Apply(step, start, Done, Arrives(all)) == there;
    assert Reaches(step, there, Done, [Arrives(all)][1..], there);
    var more;
    more, t := RunsToTheEnd(p, there, f);
    events := [Arrives(all)] + more;
    A.RunsJoin(step, start, Done, [Arrives(all)], there, more, t);
  }
}

module HandshakeServerAcceptance {
  import opened Wire
  import opened HandshakeScript
  import opened HandshakeServer
  import opened HandshakeRefusal
  import opened HandshakeServerRefusal
  import A = HandshakeAcceptance

  // What is still to come from the client, part by part.
  function LastItem(p: Params, peerCert: bool): Item {
    Hs(Finished(false, WithChannelId(p.neg, BeforeClientEnd(p, peerCert))))
  }

  function FromChannelId(p: Params, peerCert: bool): seq<Item> {
    Maybe(p.neg.channelId, Hs(ChannelId(WithProtocol(p.neg, BeforeClientEnd(p, peerCert))))) + [LastItem(p, peerCert)]
  }

  function FromProtocol(p: Params, peerCert: bool): seq<Item> {
    Maybe(p.neg.npn, Hs(NextProto)) + FromChannelId(p, peerCert)
  }

  function FromCcs(p: Params, peerCert: bool): seq<Item> {
    [Ccs] + FromProtocol(p, peerCert)
  }

  function FromVerify(p: Params, peerCert: bool): seq<Item> {
    Maybe(peerCert, Hs(CertificateVerify(WithClientExchange(p, peerCert)))) + FromCcs(p, peerCert)
  }

  function FromExchange(p: Params, peerCert: bool): seq<Item> {
    [Hs(ClientKeyExchange)] + FromVerify(p, peerCert)
  }

  function FromCertificate(p: Params, peerCert: bool): seq<Item> {
    Maybe(p.certReq, Hs(Certificate(!peerCert))) + FromExchange(p, peerCert)
  }

  function AfterHello(p: Params, peerCert: bool): seq<Item> {
    if p.neg.resumed then FromCcs(p, peerCert) else FromCertificate(p, peerCert)
  }

  lemma {:induction false} AllIsFromHello(p: Params, peerCert: bool)
    ensures AllItems(p, peerCert) == [Hs(ClientHello)] + AfterHello(p, peerCert)
  {
    var hello, ccs, last := [Hs(ClientHello)], [Ccs], [LastItem(p, peerCert)];
    var npn := Maybe(p.neg.npn, Hs(NextProto));
    var id := Maybe(p.neg.channelId, Hs(ChannelId(WithProtocol(p.neg, BeforeClientEnd(p, peerCert)))));
    A.NestedEnd(FromClient(p, peerCert), ccs, npn, id, last);
    if p.neg.resumed {
      assert FromClient(p, peerCert) == hello;
    } else {
      var cert, exchange := Maybe(p.certReq, Hs(Certificate(!peerCert))), [Hs(ClientKeyExchange)];
      var verify := Maybe(peerCert, Hs(CertificateVerify(WithClientExchange(p, peerCert))));
      A.NestedStart(hello, cert, exchange, verify, ccs + (npn + (id + last)));
    }
  }

  function RestAt(p: Params, peerCert: bool, s: State): seq<Item> {
    match s
    case ReadClientCertificate => FromCertificate(p, peerCert)
    case VerifyClientCertificate => FromExchange(p, peerCert)
    case ReadClientKeyExchange => FromExchange(p, peerCert)
    case ReadClientCertificateVerify => FromVerify(p, peerCert)
    case ReadChangeCipherSpec => FromCcs(p, peerCert)
    case ProcessChangeCipherSpec => FromProtocol(p, peerCert)
    case ReadNextProto => FromProtocol(p, peerCert)
    case ReadChannelId => FromChannelId(p, peerCert)
    case ReadClientFinished => [LastItem(p, peerCert)]
    case SendServerFinished => if p.neg.resumed then FromCcs(p, peerCert) else []
    case FinishServerHandshake => []
    case Done => []
    case _ => if Early(s) then [Hs(ClientHello)] + AfterHello(p, peerCert) else AfterHello(p, peerCert)
  }

  // Whether the client may send, or leave out, a certificate.
  predicate Allowed(p: Params, peerCert: bool) {
    && (peerCert ==> p.certReq && !p.neg.resumed)
    && (p.certReq && p.needCert && !p.neg.resumed ==> peerCert)
  }

  // The server is on its way through this handshake, with the rest of it there to be read.
  ghost predicate OnTheWay(p: Params, c: Server, peerCert: bool) {
    && c.wait.WaitOk?
    && c.transcript == TranscriptAt(p, peerCert, c.state) && c.inbox == RestAt(p, peerCert, c.state)
    && (!Early(c.state) ==> c.neg == Some(p.neg) && c.certReq == p.certReq)
    && c.peerCert == (peerCert && !BeforeCertificate(c.state))
    && (OnlyFull(c.state) ==> !p.neg.resumed)
  }

  function Next(p: Params, c: Server): Server {
    A.Settle(Do(p, c, false))
  }

  lemma {:induction false} EarlyGoesOn(p: Params, c: Server, peerCert: bool)
    requires Allowed(p, peerCert) && OnTheWay(p, c, peerCert) && Early(c.state) && !c.state.SelectParameters?
    ensures OnTheWay(p, Next(p, c), peerCert)
  {
    assert c.inbox[0] == Hs(ClientHello);
  }

  lemma {:induction false} ParametersGoOn(p: Params, c: Server, peerCert: bool)
    requires Allowed(p, peerCert) && OnTheWay(p, c, peerCert) && c.state.SelectParameters?
    ensures OnTheWay(p, Next(p, c), peerCert)
  {
    assert c.inbox[0] == Hs(ClientHello) && c.inbox[1..] == AfterHello(p, peerCert);
  }

  lemma {:induction false} OwnHelloGoesOn(p: Params, c: Server, peerCert: bool)
    requires Allowed(p, peerCert) && OnTheWay(p, c, peerCert) && c.state.SendServerHello?
    ensures OnTheWay(p, Next(p, c), peerCert)
  {
  }

  lemma {:induction false} OwnCertificateGoesOn(p: Params, c: Server, peerCert: bool)
    requires Allowed(p, peerCert) && OnTheWay(p, c, peerCert) && c.state.SendServerCertificate?
    ensures OnTheWay(p, Next(p, c), peerCert)
  {
    Skipping(c.transcript, Certificate(false));
    Skipping(c.transcript + Maybe(p.neg.certAuth, Certificate(false)), CertificateStatus);
  }

  lemma {:induction false} OwnExchangeGoesOn(p: Params, c: Server, peerCert: bool)
    requires Allowed(p, peerCert) && OnTheWay(p, c, peerCert) && c.state.SendServerKeyExchange?
    ensures OnTheWay(p, Next(p, c), peerCert)
  {
    Skipping(c.transcript, ServerKeyExchange);
  }

  lemma {:induction false} HelloDoneGoesOn(p: Params, c: Server, peerCert: bool)
    requires Allowed(p, peerCert) && OnTheWay(p, c, peerCert) && c.state.SendServerHelloDone?
    ensures OnTheWay(p, Next(p, c), peerCert)
  {
    Skipping(c.transcript, CertificateRequest);
  }

  lemma {:induction false} LastFlightGoesOn(p: Params, c: Server, peerCert: bool)
    requires Allowed(p, peerCert) && OnTheWay(p, c, peerCert) && c.state.SendServerFinished?
    ensures OnTheWay(p, Next(p, c), peerCert)
  {
    var a := c.SendIf(p.neg.ticket, NewSessionTicket).SendCcs();
    assert a.transcript == WithTicket(p.neg, c.transcript);
    assert Next(p, c).transcript == ServerEnd(p.neg, BeforeServerEnd(p, peerCert));
  }

  lemma {:induction false} CertificateGoesOn(p: Params, c: Server, peerCert: bool)
    requires Allowed(p, peerCert) && OnTheWay(p, c, peerCert) && c.state.ReadClientCertificate?
    ensures OnTheWay(p, Next(p, c), peerCert)
  {
    Skipping(c.transcript, Certificate(!peerCert));
    A.Front(p.certReq, Hs(Certificate(!peerCert)), FromExchange(p, peerCert));
  }

  lemma {:induction false} ExchangeGoesOn(p: Params, c: Server, peerCert: bool)
    requires Allowed(p, peerCert) && OnTheWay(p, c, peerCert) && c.state.ReadClientKeyExchange?
    ensures OnTheWay(p, Next(p, c), peerCert)
  {
    A.Front(true, Hs(ClientKeyExchange), FromVerify(p, peerCert));
    assert c.inbox[0] == Hs(ClientKeyExchange) && c.inbox[1..] == FromVerify(p, peerCert);
  }

  lemma {:induction false} VerifyGoesOn(p: Params, c: Server, peerCert: bool)
    requires Allowed(p, peerCert) && OnTheWay(p, c, peerCert) && c.state.ReadClientCertificateVerify?
    ensures OnTheWay(p, Next(p, c), peerCert)
  {
    Skipping(c.transcript, CertificateVerify(c.transcript));
    A.Front(peerCert, Hs(CertificateVerify(c.transcript)), FromCcs(p, peerCert));
  }

  lemma {:induction false} CcsGoesOn(p: Params, c: Server, peerCert: bool)
    requires Allowed(p, peerCert) && OnTheWay(p, c, peerCert) && c.state.ReadChangeCipherSpec?
    ensures OnTheWay(p, Next(p, c), peerCert)
  {
    assert c.inbox[0] == Ccs && c.inbox[1..] == FromProtocol(p, peerCert);
  }

  lemma {:induction false} ProtocolGoesOn(p: Params, c: Server, peerCert: bool)
    requires Allowed(p, peerCert) && OnTheWay(p, c, peerCert) && c.state.ReadNextProto?
    ensures OnTheWay(p, Next(p, c), peerCert)
  {
    A.TakesFront(c, p.neg.npn, NextProto, FromChannelId(p, peerCert));
    AtChannelId(p, A.Took(c, p.neg.npn, NextProto, FromChannelId(p, peerCert)).Goto(ReadChannelId), peerCert);
  }

  lemma {:induction false} AtChannelId(p: Params, r: Server, peerCert: bool)
    requires r.state.ReadChannelId? && r.wait.WaitOk? && r.inbox == FromChannelId(p, peerCert)
    requires r.transcript == WithProtocol(p.neg, BeforeClientEnd(p, peerCert))
    requires r.neg == Some(p.neg) && r.certReq == p.certReq && r.peerCert == peerCert
    ensures OnTheWay(p, r, peerCert)
  {
  }

  lemma {:induction false} ChannelIdGoesOn(p: Params, c: Server, peerCert: bool)
    requires Allowed(p, peerCert) && OnTheWay(p, c, peerCert) && c.state.ReadChannelId?
    ensures OnTheWay(p, Next(p, c), peerCert)
  {
    var m, rest := ChannelId(c.transcript), [LastItem(p, peerCert)];
    A.TakesFront(c, p.neg.channelId, m, rest);
    AtFinished(p, A.Took(c, p.neg.channelId, m, rest).Goto(ReadClientFinished), peerCert);
  }

  lemma {:induction false} AtFinished(p: Params, r: Server, peerCert: bool)
    requires r.state.ReadClientFinished? && r.wait.WaitOk? && r.inbox == [LastItem(p, peerCert)]
    requires r.transcript == WithChannelId(p.neg, BeforeClientEnd(p, peerCert))
    requires r.neg == Some(p.neg) && r.certReq == p.certReq && r.peerCert == peerCert
    ensures OnTheWay(p, r, peerCert)
  {
  }

  lemma {:induction false} AfterFinished(p: Params, r: Server, peerCert: bool)
    requires r.state == (if p.neg.resumed then FinishServerHandshake else SendServerFinished) && r.wait.WaitOk?
    requires r.transcript == ClientEnd(p.neg, BeforeClientEnd(p, peerCert)) && r.inbox == []
    requires r.neg == Some(p.neg) && r.certReq == p.certReq && r.peerCert == peerCert
    ensures OnTheWay(p, r, peerCert)
  {
  }

  lemma {:induction false} ClientFinishedGoesOn(p: Params, c: Server, peerCert: bool)
    requires Allowed(p, peerCert) && OnTheWay(p, c, peerCert) && c.state.ReadClientFinished?
    ensures OnTheWay(p, Next(p, c), peerCert)
  {
    var m, next := Finished(false, c.transcript), if p.neg.resumed then FinishServerHandshake else SendServerFinished;
    assert c.inbox == [Hs(m)] + [];
    A.TakesFront(c, true, m, []);
    AfterFinished(p, A.Took(c, true, m, []).Goto(next), peerCert);
  }

  lemma {:induction false} OwnFlightGoesOn(p: Params, c: Server, peerCert: bool)
    requires Allowed(p, peerCert) && OnTheWay(p, c, peerCert) && SendsServerFlight(c.state)
    ensures OnTheWay(p, Next(p, c), peerCert)
  {
    match c.state {
      case SendServerHello => OwnHelloGoesOn(p, c, peerCert);
      case SendServerCertificate => OwnCertificateGoesOn(p, c, peerCert);
      case SendServerKeyExchange => OwnExchangeGoesOn(p, c, peerCert);
      case SendServerHelloDone => HelloDoneGoesOn(p, c, peerCert);
      case SendServerFinished => LastFlightGoesOn(p, c, peerCert);
    }
  }

  lemma {:induction false} ClientFlightGoesOn(p: Params, c: Server, peerCert: bool)
    requires Allowed(p, peerCert) && OnTheWay(p, c, peerCert) && ReadsClientFlight(c.state)
    ensures OnTheWay(p, Next(p, c), peerCert)
  {
    match c.state {
      case ReadClientCertificate => CertificateGoesOn(p, c, peerCert);
      case VerifyClientCertificate =>
      case ReadClientKeyExchange => ExchangeGoesOn(p, c, peerCert);
      case ReadClientCertificateVerify => VerifyGoesOn(p, c, peerCert);
      case ReadChangeCipherSpec => CcsGoesOn(p, c, peerCert);
    }
  }

  lemma {:induction false} CcsIsTaken(p: Params, c: Server, peerCert: bool)
    requires Allowed(p, peerCert) && OnTheWay(p, c, peerCert) && c.state.ProcessChangeCipherSpec?
    ensures OnTheWay(p, Next(p, c), peerCert)
  {
  }

  lemma {:induction false} EndGoesOn(p: Params, c: Server, peerCert: bool)
    requires Allowed(p, peerCert) && OnTheWay(p, c, peerCert) && Finishes(c.state)
    ensures OnTheWay(p, Next(p, c), peerCert)
  {
    match c.state {
      case ProcessChangeCipherSpec => CcsIsTaken(p, c, peerCert);
      case ReadNextProto => ProtocolGoesOn(p, c, peerCert);
      case ReadChannelId => ChannelIdGoesOn(p, c, peerCert);
      case ReadClientFinished => ClientFinishedGoesOn(p, c, peerCert);
      case FinishServerHandshake =>
    }
  }

  lemma {:induction false} GoesOn(p: Params, c: Server, peerCert: bool)
    requires Allowed(p, peerCert) && OnTheWay(p, c, peerCert) && c.state != Done
    ensures OnTheWay(p, Next(p, c), peerCert)
  {
    if c.state.SelectParameters? {
      ParametersGoOn(p, c, peerCert);
    } else if Early(c.state) {
      EarlyGoesOn(p, c, peerCert);
    } else if SendsServerFlight(c.state) {
      OwnFlightGoesOn(p, c, peerCert);
    } else if ReadsClientFlight(c.state) {
      ClientFlightGoesOn(p, c, peerCert);
    } else {
      EndGoesOn(p, c, peerCert);
    }
  }

  lemma {:induction false} ComesCloser(p: Params, c: Server, peerCert: bool)
    requires Allowed(p, peerCert) && OnTheWay(p, c, peerCert) && c.state != Done
    ensures OnTheWay(p, Next(p, c), peerCert)
    ensures Rank(Next(p, c).state, Resumed(Next(p, c))) < Rank(c.state, Resumed(c))
  {
    GoesOn(p, c, peerCert);
    OkDecreases(p, c, false);
    A.Settled(Do(p, c, false));
  }

  lemma {:induction false} RunsToTheEnd(p: Params, t: Trial<State>, peerCert: bool)
    returns (events: seq<Event>, t': Trial<State>)
    requires Allowed(p, peerCert) && OnTheWay(p, t.x, peerCert)
    ensures Reaches((x, retry) => Do(p, x, retry), t, Done, events, t')
    ensures t'.x.state == Done && t'.arrived == t.arrived && OnTheWay(p, t'.x, peerCert)
    decreases Rank(t.x.state, Resumed(t.x))
  {
    if t.x.state == Done {
      events, t' := [], t;
    } else {
      var step: Transition<State> := (x, retry) => Do(p, x, retry);
      ComesCloser(p, t.x, peerCert);
      A.RoundRuns(step, t, Done);
      var more;
      more, t' := RunsToTheEnd(p, t.(x := Next(p, t.x)), peerCert);
      events := A.Events(Do(p, t.x, false)) + more;
      A.RunsJoin(step, t, Done, A.Events(Do(p, t.x, false)), t.(x := Next(p, t.x)), more, t');
    }
  }

  // Whatever it has negotiated, and whether or not a client that may leave it out has a certificate,
  // the server comes to the end with it.
  lemma {:induction false} AllowedIsFinished(p: Params, peerCert: bool) returns (events: seq<Event>, t: Trial<State>)
    requires Allowed(p, peerCert)
    ensures Reaches((x, retry) => Do(p, x, retry), Trial(START, []), Done, events, t)
    ensures t.x.state == Done && t.x.wait == WaitOk && t.x.inbox == [] && t.x.neg == Some(p.neg)
    ensures t.x.peerCert == peerCert && t.x.transcript == Whole(p, peerCert)
    ensures t.arrived == AllItems(p, peerCert)
  {
    var step: Transition<State> := (x, retry) => Do(p, x, retry);
    var all := AllItems(p, peerCert);
    var start, there := Trial(START, []), Trial(START.(inbox := all), all);
    AllIsFromHello(p, peerCert);
    assert Apply(step, start, Done, Arrives(all)) == there;
    assert Reaches(step, there, Done, [Arrives(all)][1..], there);
    var more;
    more, t := RunsToTheEnd(p, there, peerCert);
    events := [Arrives(all)] + more;
    A.RunsJoin(step, start, Done, [Arrives(all)], there, more, t);
  }
}
