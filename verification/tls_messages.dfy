// Handshake messages on a TLS stream: records' contents are appended to hs_buf and messages
// are taken off its front, however the records were cut.

module TlsMessages {
  import opened Wire

  const SSL3_HM_HEADER_LENGTH := 4

  datatype Message = Message(typ: nat, body: seq<Byte>) {
    predicate Fits() {
      typ < 0x100 && |body| < 0x100_0000
    }
  }

  // ssl3_init_message and ssl3_finish_message.
  function MessageBytes(m: Message): (b: seq<Byte>)
    ensures |b| == SSL3_HM_HEADER_LENGTH + |m.body|
  {
    BigEndian(m.typ, 1) + BigEndian(|m.body|, 3) + m.body
  }

  lemma {:induction false} MessageLayout(m: Message)
    requires m.Fits()
    ensures MessageBytes(m) == [m.typ, |m.body| / 0x1_0000, |m.body| / 0x100 % 0x100, |m.body| % 0x100] + m.body
  {
    TwoBytes(m.typ);
    ThreeBytes(|m.body|);
  }

  function Stream(ms: seq<Message>): seq<Byte> {
    if ms == [] then [] else MessageBytes(ms[0]) + Stream(ms[1..])
  }

  // parse_message: the message at the front, or how many bytes it takes to see one.
  datatype Parsed = Complete(msg: Message) | Needs(bytes: nat)

  function Parse(data: seq<Byte>): (p: Parsed)
    ensures p.Complete? ==> p.msg.Fits() && SSL3_HM_HEADER_LENGTH + |p.msg.body| <= |data|
    ensures p.Needs? ==> |data| < p.bytes
  {
    if |data| < SSL3_HM_HEADER_LENGTH then Needs(SSL3_HM_HEADER_LENGTH)
    else
      var len := GetBigEndian(data, 1, 3);
      ParsedFits(data);
      if |data| < SSL3_HM_HEADER_LENGTH + len then Needs(SSL3_HM_HEADER_LENGTH + len)
      else Complete(Message(GetBigEndian(data, 0, 1), data[SSL3_HM_HEADER_LENGTH..SSL3_HM_HEADER_LENGTH + len]))
  }

  lemma {:induction false} ParsedFits(data: seq<Byte>)
    requires |data| >= SSL3_HM_HEADER_LENGTH
    ensures GetBigEndian(data, 0, 1) < 0x100 && GetBigEndian(data, 1, 3) < 0x100_0000
  {
    Limits();
    GetBelow(data, 0, 1);
    GetBelow(data, 1, 3);
  }

  lemma {:induction false} ParseInverts(m: Message, rest: seq<Byte>)
    requires m.Fits()
    ensures Parse(MessageBytes(m) + rest) == Complete(m)
  {
    var data := MessageBytes(m) + rest;
    assert data[0..0 + 1] == BigEndian(m.typ, 1);
    assert data[1..1 + 3] == BigEndian(|m.body|, 3);
    assert data[4..4 + |m.body|] == m.body;
    Limits();
    GetInverts(m.typ, 1, data, 0);
    GetInverts(|m.body|, 3, data, 1);
  }

  lemma {:induction false} ParsedIsPrefix(data: seq<Byte>)
    requires Parse(data).Complete?
    ensures data == MessageBytes(Parse(data).msg) + data[SSL3_HM_HEADER_LENGTH + |Parse(data).msg.body|..]
  {
    var len := |Parse(data).msg.body|;
    BigEndianOfGet(data, 0, 1);
    BigEndianOfGet(data, 1, 3);
    assert data == data[0..0 + 1] + data[1..1 + 3] + data[4..4 + len] + data[4 + len..];
  }

  // What precedes a message's end does not parse.
  lemma {:induction false} CutDoesNotParse(m: Message, n: nat)
    requires m.Fits() && n < |MessageBytes(m)|
    ensures Parse(MessageBytes(m)[..n]).Needs? && Parse(MessageBytes(m)[..n]).bytes <= |MessageBytes(m)|
  {
    var cut := MessageBytes(m)[..n];
    if n >= SSL3_HM_HEADER_LENGTH {
      assert cut[1..1 + 3] == BigEndian(|m.body|, 3);
      Limits();
      GetInverts(|m.body|, 3, cut, 1);
    }
  }

  lemma {:induction false} StreamOneMore(ms: seq<Message>, m: Message)
    ensures Stream(ms + [m]) == Stream(ms) + MessageBytes(m)
  {
    if ms == [] {
      assert (ms + [m])[1..] == [];
    } else {
      assert (ms + [m])[1..] == ms[1..] + [m];
      StreamOneMore(ms[1..], m);
    }
  }

  // A message at the front of what has arrived is the first one sent.
  lemma {:induction false} FrontIsFirst(t: Message, x: seq<Byte>, m: Message, rest: seq<Byte>, arrived: nat)
    requires t.Fits() && m.Fits() && arrived <= |MessageBytes(m) + rest|
    requires MessageBytes(t) + x == (MessageBytes(m) + rest)[..arrived]
    ensures t == m && |MessageBytes(m)| <= arrived && x == rest[..arrived - |MessageBytes(m)|]
  {
    var first := MessageBytes(m);
    ParseInverts(t, x);
    assert arrived < |first| ==> (first + rest)[..arrived] == first[..arrived];
    if arrived < |first| {
      CutDoesNotParse(m, arrived);
      assert false;
    }
    ParseInverts(m, rest[..arrived - |first|]);
    assert (first + rest)[..arrived] == first + rest[..arrived - |first|];
    assert (MessageBytes(t) + x)[|first|..] == rest[..arrived - |first|];
  }

  // A stream splits into messages in one way only: the messages taken off any part of it are
  // the first ones sent, and what is left over belongs to the next one.
  lemma {:induction false} TakenAreFirst(taken: seq<Message>, left: seq<Byte>, ms: seq<Message>, arrived: nat)
    requires (forall m :: m in ms ==> m.Fits()) && (forall m :: m in taken ==> m.Fits())
    requires arrived <= |Stream(ms)| && Stream(taken) + left == Stream(ms)[..arrived]
    ensures taken <= ms
    ensures left <= Stream(ms[|taken|..])
  {
    if taken != [] {
      assert Stream(taken) + left == MessageBytes(taken[0]) + (Stream(taken[1..]) + left);
      assert ms != [];
      var first := |MessageBytes(ms[0])|;
      FrontIsFirst(taken[0], Stream(taken[1..]) + left, ms[0], Stream(ms[1..]), arrived);
      TakenAreFirst(taken[1..], left, ms[1..], arrived - first);
      assert ms[1..][|taken[1..]|..] == ms[|taken|..];
    } else {
      assert ms[0..] == ms;
    }
  }

  // And nothing complete is held back.
  lemma {:induction false} CompleteParses(left: seq<Byte>, ms: seq<Message>)
    requires ms != [] && ms[0].Fits() && left <= Stream(ms)
    ensures Parse(left).Complete? <==> |left| >= |MessageBytes(ms[0])|
    ensures Parse(left).Complete? ==> Parse(left).msg == ms[0]
  {
    var first := MessageBytes(ms[0]);
    if |left| >= |first| {
      ParseInverts(ms[0], left[|first|..]);
      assert left == first + left[|first|..];
    } else {
      CutDoesNotParse(ms[0], |left|);
      assert left == first[..|left|];
    }
  }

  class HandshakeBuffer {
    var hsBuf: Option<seq<Byte>>
    var hasMessage: bool
    ghost var arrived: seq<Byte>
    ghost var taken: seq<Message>

    ghost predicate Valid()
      reads this
    {
      && arrived == Stream(taken) + Data()
      && (forall m :: m in taken ==> m.Fits())
      && (hasMessage ==> Parse(Data()).Complete?)
    }

    function Data(): seq<Byte>
      reads this
    {
      if hsBuf.Some? then hsBuf.value else []
    }

    constructor ()
      ensures Valid() && arrived == [] && taken == []
    {
      hsBuf, hasMessage, arrived, taken := None, false, [], [];
    }

    // The end of ssl3_open_handshake: a handshake record's contents.
    method Append(body: seq<Byte>)
      requires Valid() && !hasMessage
      modifies this
      ensures Valid() && !hasMessage && taken == old(taken)
      ensures arrived == old(arrived) + body
    {
      assert Stream(taken) + Data() + body == Stream(taken) + (Data() + body);
      hsBuf := Some(Data() + body);
      arrived := arrived + body;
    }

    // ssl3_get_message.
    method GetMessage() returns (msg: Option<Message>)
      requires Valid()
      modifies this`hasMessage
      ensures Valid() && hasMessage == msg.Some?
      ensures msg == if Parse(Data()).Complete? then Some(Parse(Data()).msg) else None
    {
      var p := Parse(Data());
      if p.Needs? {
        return None;
      }
      hasMessage := true;
      return Some(p.msg);
    }

    // tls_can_accept_handshake_data, with the limit on message lengths.
    method CanAccept(limit: nat) returns (ok: bool)
      ensures ok <==> Parse(Data()).Needs? && Parse(Data()).bytes <= SSL3_HM_HEADER_LENGTH + limit
    {
      var p := Parse(Data());
      ok := p.Needs? && p.bytes <= SSL3_HM_HEADER_LENGTH + limit;
    }

    // tls_has_unprocessed_handshake_data: bytes beyond the message that is being handled.
    method HasUnprocessed() returns (yes: bool)
      requires Valid()
      ensures yes <==> |Data()| > if hasMessage then |MessageBytes(Parse(Data()).msg)| else 0
    {
      var msgLen := 0;
      if hasMessage {
        var p := Parse(Data());
        msgLen := SSL3_HM_HEADER_LENGTH + |p.msg.body|;
      }
      yes := hsBuf.Some? && |hsBuf.value| > msgLen;
    }

    // ssl3_next_message; the source asserts that there is a message.
    method NextMessage(inInit: bool)
      requires Valid() && Parse(Data()).Complete?
      modifies this
      ensures Valid() && !hasMessage && arrived == old(arrived)
      ensures taken == old(taken) + [Parse(old(Data())).msg]
      ensures !inInit && Data() == [] ==> hsBuf == None
    {
      var msg := Parse(Data()).msg;
      ParsedIsPrefix(Data());
      StreamOneMore(taken, msg);
      ghost var rest := Data()[SSL3_HM_HEADER_LENGTH + |msg.body|..];
      assert Stream(taken) + (MessageBytes(msg) + rest) == Stream(taken) + MessageBytes(msg) + rest;
      hsBuf := Some(Data()[SSL3_HM_HEADER_LENGTH + |msg.body|..]);
      hasMessage := false;
      taken := taken + [msg];
      if !inInit && Data() == [] {
        hsBuf := None;
      }
    }
  }
}
