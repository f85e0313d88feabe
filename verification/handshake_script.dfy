// The messages of a TLS 1.0 to 1.2 handshake as one script that both sides follow: numbered
// slots in order, each present or not by the negotiated parameters.

module HandshakeScript {
  import opened Wire

  // What the ServerHello tells the client.
  datatype Negotiated = Negotiated(resumed: bool, certAuth: bool, ecdhe: bool, status: bool, ticket: bool,
                                   npn: bool, channelId: bool)

  // hint: the server has a PSK identity hint; certReq: the server asks for a certificate;
  // hasCert: the client has one; needCert: the server insists on it.
  datatype Params = Params(neg: Negotiated, hint: bool, certReq: bool, hasCert: bool, needCert: bool) {
    predicate Agreed() {
      && (certReq ==> neg.certAuth && !neg.resumed)
      && (neg.channelId ==> neg.ecdhe)
      && (certReq && needCert ==> hasCert)
    }

    // ssl_cipher_requires_server_key_exchange, or a PSK cipher with a hint
    predicate SendsKeyExchange() {
      neg.ecdhe || (!neg.certAuth && hint)
    }
  }

  // Signatures and verify data stand for the transcript they are computed over.
  datatype Msg =
    | ClientHello | ServerHello(neg: Negotiated) | Certificate(empty: bool) | CertificateStatus
    | ServerKeyExchange | CertificateRequest | ServerHelloDone | ClientKeyExchange
    | CertificateVerify(over: seq<Msg>) | NextProto | ChannelId(over: seq<Msg>)
    | NewSessionTicket | Finished(byServer: bool, over: seq<Msg>)

  datatype Item = Hs(msg: Msg) | Ccs

  const SLOTS := 20

  // In a resumption the server finishes first, in slots 7 to 9; otherwise last, in 17 to 19.
  predicate Present(p: Params, k: nat) {
    var full := !p.neg.resumed;
    if k == 2 then full && p.neg.certAuth
    else if k == 3 then full && p.neg.certAuth && p.neg.status
    else if k == 4 then full && p.SendsKeyExchange()
    else if k == 5 || k == 10 then p.certReq
    else if k == 6 || k == 11 || k == 18 || k == 19 then full
    else if k == 7 then !full && p.neg.ticket
    else if k == 8 || k == 9 then !full
    else if k == 12 then p.certReq && p.hasCert
    else if k == 14 then p.neg.npn
    else if k == 15 then p.neg.channelId
    else if k == 17 then full && p.neg.ticket
    else k < SLOTS
  }

  predicate ByClient(k: nat) {
    k == 0 || 10 <= k <= 16
  }

  function ItemAt(p: Params, k: nat): Item
    decreases k, p, 1
  {
    if k == 0 then Hs(ClientHello)
    else if k == 1 then Hs(ServerHello(p.neg))
    else if k == 2 then Hs(Certificate(false))
    else if k == 3 then Hs(CertificateStatus)
    else if k == 4 then Hs(ServerKeyExchange)
    else if k == 5 then Hs(CertificateRequest)
    else if k == 6 then Hs(ServerHelloDone)
    else if k == 10 then Hs(Certificate(!p.hasCert))
    else if k == 11 then Hs(ClientKeyExchange)
    else if k == 12 then Hs(CertificateVerify(Transcript(p, k)))
    else if k == 14 then Hs(NextProto)
    else if k == 15 then Hs(ChannelId(Transcript(p, k)))
    else if k == 16 then Hs(Finished(false, Transcript(p, k)))
    else if k == 7 || k == 17 then Hs(NewSessionTicket)
    else if k == 8 || k == 13 || k == 18 then Ccs
    else Hs(Finished(true, Transcript(p, k)))
  }

  // Every message before slot k, once.
  function Transcript(p: Params, k: nat): seq<Msg>
    decreases k, p, 0
  {
    if k == 0 then []
    else
      var item := ItemAt(p, k - 1);
      Transcript(p, k - 1) + if Present(p, k - 1) && item.Hs? then [item.msg] else []
  }

  // What is in the slots from a to b.
  function Items(p: Params, a: nat, b: nat): seq<Item>
    decreases b - a, p
  {
    if a >= b then [] else (if Present(p, a) then [ItemAt(p, a)] else []) + Items(p, a + 1, b)
  }

  lemma {:induction false} ItemsSplit(p: Params, a: nat, b: nat, c: nat)
    requires a <= b <= c
    ensures Items(p, a, c) == Items(p, a, b) + Items(p, b, c)
    decreases b - a
  {
    if a < b {
      ItemsSplit(p, a + 1, b, c);
    }
  }

  lemma {:induction false} ThreeParts(p: Params, a: nat, before: seq<Item>)
    ensures before + Items(p, a, a + 3) == before + Items(p, a, a + 1) + Items(p, a + 1, a + 2) + Items(p, a + 2, a + 3)
  {
    ItemsSplit(p, a, a + 1, a + 3);
    ItemsSplit(p, a + 1, a + 2, a + 3);
    assert Items(p, a, a + 3) == Items(p, a, a + 1) + (Items(p, a + 1, a + 2) + Items(p, a + 2, a + 3));
  }

  lemma {:induction false} FourParts(p: Params, a: nat, before: seq<Item>)
    ensures before + Items(p, a, a + 4)
         == before + Items(p, a, a + 1) + Items(p, a + 1, a + 2) + Items(p, a + 2, a + 3) + Items(p, a + 3, a + 4)
  {
    ItemsSplit(p, a, a + 3, a + 4);
    ThreeParts(p, a, before);
    assert before + (Items(p, a, a + 3) + Items(p, a + 3, a + 4))
           == before + Items(p, a, a + 3) + Items(p, a + 3, a + 4);
  }

  predicate Absent(p: Params, a: nat, b: nat) {
    forall k :: a <= k < b ==> !Present(p, k)
  }

  lemma {:induction false} NothingBetween(p: Params, a: nat, b: nat)
    requires a <= b && Absent(p, a, b)
    ensures Items(p, a, b) == [] && Transcript(p, b) == Transcript(p, a)
    decreases b - a
  {
    if a < b {
      assert !Present(p, a);
      NothingBetween(p, a + 1, b);
    }
  }

  // The first present slot from k on.
  function Next(p: Params, k: nat): (n: nat)
    ensures k <= n && Absent(p, k, n)
    ensures k <= SLOTS ==> n <= SLOTS
    ensures n < SLOTS ==> Present(p, n)
    decreases SLOTS - k, p
  {
    if k >= SLOTS || Present(p, k) then k else Next(p, k + 1)
  }

  lemma FirstItem(p: Params, a: nat, b: nat)
    requires a <= b <= SLOTS && Items(p, a, b) != []
    ensures a < b
    ensures Items(p, a, b) == if Present(p, a) then [ItemAt(p, a)] + Items(p, a + 1, b) else Items(p, a + 1, b)
    ensures Next(p, a) == if Present(p, a) then a else Next(p, a + 1)
  {
  }

  // Items that are there begin with the next slot's.
  lemma {:induction false} HeadIsNext(p: Params, a: nat, b: nat)
    requires a <= b <= SLOTS && Items(p, a, b) != []
    ensures Next(p, a) < b && Present(p, Next(p, a))
    ensures Items(p, a, b)[0] == ItemAt(p, Next(p, a))
    ensures Items(p, a, b)[1..] == Items(p, Next(p, a) + 1, b)
    decreases b - a
  {
    FirstItem(p, a, b);
    if !Present(p, a) {
      HeadIsNext(p, a + 1, b);
    }
  }

  datatype Wait = WaitOk | WaitFlush | WaitMessage | WaitCcs | WaitCallback | WaitError

  // One side. inbox is what the peer has put on the wire and this side has not taken;
  // flight is what it has not flushed.
  datatype Peer<S> = Peer(state: S, wait: Wait, neg: Option<Negotiated>, certReq: bool, peerCert: bool,
                          transcript: seq<Msg>, flight: seq<Item>, inbox: seq<Item>) {
    // get_message
    function Peek(): Option<Msg> {
      if inbox != [] && inbox[0].Hs? then Some(inbox[0].msg) else None
    }

    function Goto(s: S): Peer<S> {
      this.(state := s, wait := WaitOk)
    }

    function Await(w: Wait): Peer<S> {
      this.(wait := w)
    }

    // ssl_hash_message and next_message
    function Receive(): Peer<S>
      requires Peek().Some?
    {
      this.(transcript := transcript + [inbox[0].msg], inbox := inbox[1..])
    }

    // ssl_add_message_cbb: the message is hashed and put in the flight.
    function Send(m: Msg): Peer<S> {
      this.(transcript := transcript + [m], flight := flight + [Hs(m)])
    }

    function SendIf(b: bool, m: Msg): Peer<S> {
      if b then Send(m) else this
    }

    function SendCcs(): Peer<S> {
      this.(flight := flight + [Ccs])
    }

    // What ssl_run_handshake does before it runs the machine again, when it can.
    predicate Blocked() {
      (wait.WaitMessage? || wait.WaitCcs?) && inbox == []
    }

    // The two waits for the peer: the next record is a message, or a ChangeCipherSpec.
    function Resolve(): Peer<S>
      requires !Blocked()
    {
      match wait
      case WaitMessage => if inbox[0].Hs? then Await(WaitOk) else Await(WaitError)
      case WaitCcs => if inbox[0].Ccs? then this.(inbox := inbox[1..], wait := WaitOk) else Await(WaitError)
      case WaitCallback => Await(WaitOk)
      case _ => this
    }
  }

  // ssl_client_handshake and ssl_server_handshake: a dispatch loop over the transitions of one side.
  class Machine<S(==,!new)> {
    const step: (Peer<S>, bool) -> Peer<S>
    const rank: Peer<S> -> nat
    const done: S
    var hs: Peer<S>

    // A transition that lets the loop go on goes down in rank.
    ghost predicate Decreasing() {
      forall c: Peer<S>, retry: bool :: c.state != done && c.wait == WaitOk && step(c, retry).wait == WaitOk
                                        ==> rank(step(c, retry)) < rank(c)
    }

    constructor (step: (Peer<S>, bool) -> Peer<S>, rank: Peer<S> -> nat, start: Peer<S>, done: S)
      ensures this.step == step && this.rank == rank && this.done == done && hs == start
    {
      this.step, this.rank, this.done, hs := step, rank, done, start;
    }

    // Runs until something has to be waited for, or to the end; never more transitions than the
    // rank it starts at, and one. retries says which callbacks are not ready.
    method Run(retries: nat -> bool) returns (wait: Wait, steps: nat)
      requires Decreasing() && hs.wait == WaitOk
      modifies this`hs
      ensures wait == hs.wait && hs == Iterate(step, old(hs), retries, steps)
      ensures wait == WaitOk ==> hs.state == done
      ensures steps <= rank(old(hs)) + 1
    {
      steps := 0;
      while hs.state != done
        invariant hs.wait == WaitOk && hs == Iterate(step, old(hs), retries, steps)
        invariant Decreasing() && steps + rank(hs) <= rank(old(hs))
        decreases rank(hs)
      {
        ghost var before, retry := hs, retries(steps);
        assert step(before, retry).wait == WaitOk ==> rank(step(before, retry)) < rank(before);
        hs := step(hs, retries(steps));
        steps := steps + 1;
        if hs.wait != WaitOk {
          return hs.wait, steps;
        }
      }
      return WaitOk, steps;
    }
  }

  ghost function Iterate<S>(step: (Peer<S>, bool) -> Peer<S>, c: Peer<S>, retries: nat -> bool, n: nat): Peer<S> {
    if n == 0 then c else step(Iterate(step, c, retries, n - 1), retries(n - 1))
  }
}
