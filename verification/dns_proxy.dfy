/**
  What `DnsProxyService` does with one datagram: decode it, look at the
  first question, and either forward the raw bytes upstream or answer
  locally with the loopback address. Sending the response back to the
  client is left to the caller; `None` means nothing is sent.
*/
module DnsProxy {
  import opened Wrappers
  import opened Bytes
  import opened DnsMessage
  import opened DnsConfiguration
  import opened DnsForwarder

  /** Standard query response, recursion desired and available, no error. */
  const BlockedFlags: uint16 := 0x8180

  const TypeA: uint16 := 1
  const ClassIN: uint16 := 1
  const BlockedTtl: uint32 := 300
  const Loopback: seq<byte> := [127, 0, 0, 1]

  /**
    The answer a blocked A question gets: the name resolves to 127.0.0.1 for
    five minutes. On the wire it is the question's name followed by the
    fixed loopback record.
  */
  function LoopbackAnswer(name: string): (a: Answer)
    ensures EncodeAnswer(a) == EncodeName(name) + LoopbackRecordTail
  {
    assert BigEndian16(1) == [0, 1];
    assert BigEndian16(0) == [0, 0] && BigEndian16(300) == [1, 44];
    assert BigEndian32(300) == [0, 0, 1, 44];
    assert BigEndian16(Low16(4)) == [0, 4];
    Answer(name, TypeA, ClassIN, BlockedTtl, Loopback)
  }

  /** The record bytes after the name of a blocked answer: type A, class IN, TTL 300, four bytes of data, 127.0.0.1. */
  const LoopbackRecordTail: seq<byte> := [0, 1, 0, 1, 0, 0, 1, 44, 0, 4, 127, 0, 0, 1]

  /** One loopback answer per question of type A, in question order; other questions get none. */
  function BlockedAnswers(questions: seq<Question>): (answers: seq<Answer>)
    ensures |answers| <= |questions|
    ensures forall k :: 0 <= k < |answers| ==>
      exists i :: 0 <= i < |questions| && questions[i].qtype == TypeA && answers[k] == LoopbackAnswer(questions[i].name)
    ensures (forall i :: 0 <= i < |questions| ==> questions[i].qtype != TypeA) ==> answers == []
    decreases |questions|
  {
    if |questions| == 0 then []
    else
      var rest := BlockedAnswers(questions[1..]);
      assert forall i :: 1 <= i < |questions| ==> questions[i] == questions[1..][i - 1];
      if questions[0].qtype == TypeA then [LoopbackAnswer(questions[0].name)] + rest else rest
  }

  /** Answers for consecutive runs of questions are the answers for each run, one after the other. */
  lemma {:induction false} BlockedAnswersAppend(a: seq<Question>, b: seq<Question>)
    ensures BlockedAnswers(a + b) == BlockedAnswers(a) + BlockedAnswers(b)
    decreases |a|
  {
    if |a| == 0 {
      assert a + b == b;
    } else {
      assert (a + b)[1..] == a[1..] + b;
      BlockedAnswersAppend(a[1..], b);
    }
  }

  /** A single question gets one loopback answer when it asks for an A record, and none otherwise. */
  lemma BlockedAnswersSingle(q: Question)
    ensures BlockedAnswers([q]) == if q.qtype == TypeA then [LoopbackAnswer(q.name)] else []
  {
    assert [q][1..] == [];
  }

  /**
    The message `CreateBlockedResponse` builds: the request's id, the
    response flags, the request's questions and their loopback answers.
    The count fields are those of a fresh message, all zero.
  */
  function BlockedMessage(request: Message): Message
  {
    Message(request.transactionId, BlockedFlags, 0, 0, 0, 0, request.questions, BlockedAnswers(request.questions))
  }

  /**
    `CreateBlockedResponse`: the blocked message on the wire. Its header
    carries the request's id, flags 0x8180, the number of questions and of
    answers, and zero authority and additional records.
  */
  function CreateBlockedResponse(request: Message): (b: seq<byte>)
    ensures |b| >= HeaderLength
    ensures Uint16At(b, 0) == request.transactionId
    ensures Uint16At(b, 2) == BlockedFlags
    ensures Uint16At(b, 4) == Low16(|request.questions|)
    ensures Uint16At(b, 6) == Low16(|BlockedAnswers(request.questions)|)
    ensures Uint16At(b, 8) == 0 && Uint16At(b, 10) == 0
  {
    Encode(BlockedMessage(request))
  }

  /**
    The whole blocked response to a single A question, byte by byte: the
    request's id, flags 0x8180, one question, one answer, no authority or
    additional records, the question as asked, and the loopback answer.
  */
  lemma BlockedResponseToOneA(request: Message)
    requires |request.questions| == 1 && request.questions[0].qtype == TypeA
    ensures var q := request.questions[0];
      CreateBlockedResponse(request)
      == BigEndian16(request.transactionId) + [0x81, 0x80, 0, 1, 0, 1, 0, 0, 0, 0]
         + EncodeQuestion(q) + EncodeName(q.name) + LoopbackRecordTail
  {
    var q := request.questions[0];
    var m := BlockedMessage(request);
    var header := BigEndian16(request.transactionId) + [0x81, 0x80, 0, 1, 0, 1, 0, 0, 0, 0];
    var answer := EncodeName(q.name) + LoopbackRecordTail;
    assert m.answers == [LoopbackAnswer(q.name)] by {
      BlockedAnswersSingle(q);
      assert request.questions == [q];
    }
    assert EncodeHeader(m) == header by {
      assert BigEndian16(BlockedFlags) == [0x81, 0x80];
      assert BigEndian16(Low16(1)) == [0, 1] && BigEndian16(0) == [0, 0];
    }
    assert EncodeQuestions(m.questions) == EncodeQuestion(q) by {
      assert m.questions == [q] && [q][1..] == [];
    }
    assert EncodeAnswers(m.answers) == answer by {
      assert m.answers[1..] == [];
    }
    calc {
      CreateBlockedResponse(request);
      Encode(m);
      EncodeHeader(m) + (EncodeQuestions(m.questions) + EncodeAnswers(m.answers));
      header + (EncodeQuestion(q) + answer);
    }
  }

  /**
    A client decoding the blocked response sees the request's id, flags
    0x8180 and, when the names are well formed and fewer than 65536, the
    request's own questions in order.
  */
  lemma BlockedResponseDecodes(request: Message)
    requires |request.questions| < 0x1_0000
    requires forall k :: 0 <= k < |request.questions| ==> WellFormedName(request.questions[k].name)
    ensures Decode(CreateBlockedResponse(request)).Ok?
    ensures Decode(CreateBlockedResponse(request)).value.transactionId == request.transactionId
    ensures Decode(CreateBlockedResponse(request)).value.flags == BlockedFlags
    ensures Decode(CreateBlockedResponse(request)).value.questions == request.questions
  {
    RoundTrip(BlockedMessage(request));
  }

  /** What became of a request. */
  datatype Outcome =
    | Dropped                 // undecodable, or no question: nothing is sent
    | Forwarded               // the first name is allowed: the raw request goes upstream
    | Blocked(request: Message)  // the first name is not allowed: answered locally

  /** The decision, before any response is built: only the first question's name is consulted. */
  function Decide(requestData: seq<byte>, allowList: AllowList): (o: Outcome)
    ensures o.Blocked? ==> Decode(requestData) == Ok(o.request)
  {
    match Decode(requestData)
    case Err(_) => Dropped
    case Ok(request) =>
      if |request.questions| == 0 then Dropped
      else if IsAllowedDomain(allowList, request.questions[0].name) then Forwarded
      else Blocked(request)
  }

  /**
    `ProcessDnsRequestAsync`: the bytes sent back to the client, if any. An
    allowed request is forwarded as received, and a forwarding failure sends
    nothing; a blocked one gets the loopback response.
  */
  function ProcessDnsRequest(requestData: seq<byte>, allowList: AllowList,
                             servers: seq<Endpoint>, send: Network): (response: Option<seq<byte>>)
    ensures Decide(requestData, allowList).Dropped? ==> response.None?
    ensures Decide(requestData, allowList).Blocked? ==> response.Some?
  {
    match Decide(requestData, allowList)
    case Dropped => None
    case Forwarded => Forward(servers, requestData, send).ToOption()
    case Blocked(request) => Some(CreateBlockedResponse(request))
  }

  /** Undecodable input, including anything shorter than a header, gets no response. */
  lemma UndecodableDropped(requestData: seq<byte>, allowList: AllowList,
                           servers: seq<Endpoint>, send: Network)
    requires Decode(requestData).Err?
    ensures ProcessDnsRequest(requestData, allowList, servers, send) == None
  {
  }

  /** A request whose header declares no question gets no response. */
  lemma NoQuestionDropped(requestData: seq<byte>, allowList: AllowList,
                          servers: seq<Endpoint>, send: Network)
    requires |requestData| >= HeaderLength && Uint16At(requestData, 4) == 0
    ensures ProcessDnsRequest(requestData, allowList, servers, send) == None
  {
  }

  /**
    Only the first question counts: when its name is allowed, the response
    is the first upstream reply to the unchanged request bytes, whatever the
    other questions ask; when no server replies, nothing is sent.
  */
  lemma AllowedForwardsRawRequest(requestData: seq<byte>, allowList: AllowList,
                                  servers: seq<Endpoint>, send: Network)
    requires Decode(requestData).Ok? && |Decode(requestData).value.questions| > 0
    requires IsAllowedDomain(allowList, Decode(requestData).value.questions[0].name)
    ensures var response := ProcessDnsRequest(requestData, allowList, servers, send);
      && (response.Some? <==> exists j :: 0 <= j < |servers| && AttemptAt(servers, requestData, send, j).Reply?)
      && (response.Some? ==> exists i :: 0 <= i < |servers| && AttemptAt(servers, requestData, send, i) == Reply(response.value)
                                         && forall j :: 0 <= j < i ==> AttemptAt(servers, requestData, send, j).Failed?)
  {
  }

  /**
    When the first name is not allowed, the client gets the loopback
    response for the decoded request, and no server is involved.
  */
  lemma DeniedGetsLoopback(requestData: seq<byte>, allowList: AllowList,
                           servers: seq<Endpoint>, send: Network)
    requires Decode(requestData).Ok? && |Decode(requestData).value.questions| > 0
    requires !IsAllowedDomain(allowList, Decode(requestData).value.questions[0].name)
    ensures ProcessDnsRequest(requestData, allowList, servers, send)
         == Some(CreateBlockedResponse(Decode(requestData).value))
  {
  }

  /** The blocked response carries the transaction id of the request bytes it answers. */
  lemma BlockedKeepsTransactionId(requestData: seq<byte>, allowList: AllowList,
                                  servers: seq<Endpoint>, send: Network)
    requires Decide(requestData, allowList).Blocked?
    ensures var response := ProcessDnsRequest(requestData, allowList, servers, send);
      response.Some? && |response.value| >= 2 && Uint16At(response.value, 0) == Uint16At(requestData, 0)
  {
  }
}
