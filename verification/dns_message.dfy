/**
  The DNS wire codec: header, question and resource-record layout of
  section 4.1 of RFC 1035, all integers big-endian. Compression pointers
  (section 4.1.4) are not followed: a pointer ends the name. Decoding reads
  the header and the questions only; answers are never decoded.
*/
module DnsMessage {
  import opened Wrappers
  import opened Bytes
  import opened Text

  datatype Question = Question(name: string, qtype: uint16, qclass: uint16)

  datatype Answer = Answer(name: string, atype: uint16, aclass: uint16, ttl: uint32, data: seq<byte>)

  /**
    A message. The count fields are what a decoded header said; encoding
    ignores `questionCount` and `answerCount` and writes the list lengths.
  */
  datatype Message = Message(
    transactionId: uint16,
    flags: uint16,
    questionCount: uint16,
    answerCount: uint16,
    authorityCount: uint16,
    additionalCount: uint16,
    questions: seq<Question>,
    answers: seq<Answer>)

  /** The binary reader ran past the end of the input. */
  datatype DecodeError = EndOfStream

  /** A value read from the front of the input, and the input left after it. */
  datatype Read<T> = Read(value: T, rest: seq<byte>)

  const HeaderLength: nat := 12

  // ---------------------------------------------------------------------
  // Text <-> bytes
  // ---------------------------------------------------------------------

  /** ASCII encoding: characters outside 7-bit ASCII become '?'. */
  function AsciiByte(ch: char): byte
  {
    if ch as int < 0x80 then ch as int else '?' as int
  }

  function AsciiBytes(s: string): (b: seq<byte>)
    ensures |b| == |s|
  {
    seq(|s|, k requires 0 <= k < |s| => AsciiByte(s[k]))
  }

  /** ASCII decoding: bytes above 0x7F become '?'. */
  function AsciiChar(b: byte): char
  {
    if b < 0x80 then b as char else '?'
  }

  function AsciiString(b: seq<byte>): (s: string)
    ensures |s| == |b|
  {
    seq(|b|, k requires 0 <= k < |b| => AsciiChar(b[k]))
  }

  predicate IsAscii(s: string)
  {
    forall k :: 0 <= k < |s| ==> s[k] as int < 0x80
  }

  /** ASCII text survives an encode/decode of its bytes. */
  lemma AsciiRoundTrip(s: string)
    requires IsAscii(s)
    ensures AsciiString(AsciiBytes(s)) == s
  {
  }

  // ---------------------------------------------------------------------
  // Names
  // ---------------------------------------------------------------------

  /** The labels a name is written with: the dot-separated pieces that are not empty. */
  function NonEmptyLabels(parts: seq<string>): (labels: seq<string>)
    ensures forall k :: 0 <= k < |labels| ==> labels[k] != "" && labels[k] in parts
  {
    if |parts| == 0 then []
    else if parts[0] == "" then NonEmptyLabels(parts[1..])
    else [parts[0]] + NonEmptyLabels(parts[1..])
  }

  /** Length-prefixed labels; empty pieces are skipped, and the length byte is the `(byte)` cast. */
  function EncodeLabels(parts: seq<string>): seq<byte>
  {
    if |parts| == 0 then []
    else
      (if parts[0] == "" then [] else [|parts[0]| % 0x100] + AsciiBytes(parts[0]))
      + EncodeLabels(parts[1..])
  }

  /** A name on the wire: its labels, then the zero-length root label. */
  function EncodeName(name: string): seq<byte>
  {
    EncodeLabels(Split(name, '.')) + [0]
  }

  /** The name the decoder reconstructs: the non-empty labels joined by dots. */
  function CanonicalName(name: string): string
  {
    Join(NonEmptyLabels(Split(name, '.')), '.')
  }

  /** A label the decoder reads back: ASCII, and short enough that its length byte is not a pointer. */
  predicate LabelFits(s: string)
  {
    |s| < 0xC0 && IsAscii(s)
  }

  /** Every label of the name fits. */
  predicate Encodable(name: string)
  {
    forall k :: 0 <= k < |Split(name, '.')| ==> LabelFits(Split(name, '.')[k])
  }

  const MaxLabelLength: nat := 63

  /** A name in the sense of RFC 1035: ASCII labels of 1 to 63 characters, or the root name "". */
  predicate WellFormedName(name: string)
  {
    name == "" ||
    forall k :: 0 <= k < |Split(name, '.')| ==>
      var piece := Split(name, '.')[k];
      1 <= |piece| <= MaxLabelLength && IsAscii(piece)
  }

  // ---------------------------------------------------------------------
  // Encoding
  // ---------------------------------------------------------------------

  function EncodeQuestion(q: Question): seq<byte>
  {
    EncodeName(q.name) + BigEndian16(q.qtype) + BigEndian16(q.qclass)
  }

  function EncodeQuestions(qs: seq<Question>): seq<byte>
  {
    if |qs| == 0 then [] else EncodeQuestion(qs[0]) + EncodeQuestions(qs[1..])
  }

  /** An answer record; RDLENGTH is the `(short)` cast of the data length. */
  function EncodeAnswer(a: Answer): seq<byte>
  {
    EncodeName(a.name) + BigEndian16(a.atype) + BigEndian16(a.aclass)
    + BigEndian32(a.ttl) + BigEndian16(Low16(|a.data|)) + a.data
  }

  function EncodeAnswers(rs: seq<Answer>): seq<byte>
  {
    if |rs| == 0 then [] else EncodeAnswer(rs[0]) + EncodeAnswers(rs[1..])
  }

  function EncodeHeader(m: Message): (h: seq<byte>)
    ensures |h| == HeaderLength
    ensures Uint16At(h, 0) == m.transactionId
    ensures Uint16At(h, 2) == m.flags
    ensures Uint16At(h, 4) == Low16(|m.questions|)
    ensures Uint16At(h, 6) == Low16(|m.answers|)
    ensures Uint16At(h, 8) == m.authorityCount
    ensures Uint16At(h, 10) == m.additionalCount
  {
    BigEndian16(m.transactionId) + BigEndian16(m.flags)
    + BigEndian16(Low16(|m.questions|)) + BigEndian16(Low16(|m.answers|))
    + BigEndian16(m.authorityCount) + BigEndian16(m.additionalCount)
  }

  /**
    `DnsMessage.ToBytes`. The header holds the transaction id and flags, the
    question and answer counts taken from the lists (not from the count
    fields), and the authority and additional counts from their fields.
  */
  function Encode(m: Message): (b: seq<byte>)
    ensures |b| >= HeaderLength
    ensures Uint16At(b, 0) == m.transactionId
    ensures Uint16At(b, 2) == m.flags
    ensures Uint16At(b, 4) == Low16(|m.questions|)
    ensures Uint16At(b, 6) == Low16(|m.answers|)
    ensures Uint16At(b, 8) == m.authorityCount
    ensures Uint16At(b, 10) == m.additionalCount
  {
    var h := EncodeHeader(m);
    var b := h + (EncodeQuestions(m.questions) + EncodeAnswers(m.answers));
    assert forall k :: 0 <= k < HeaderLength ==> b[k] == h[k];
    b
  }

  // ---------------------------------------------------------------------
  // Decoding
  // ---------------------------------------------------------------------

  /** A length byte with both top bits set (`length & 0xC0 == 0xC0`) is a compression pointer. */
  predicate IsPointer(length: byte)
  {
    (length as bv8) & 0xC0 == 0xC0
  }

  lemma PointerIsHighByte(length: byte)
    ensures IsPointer(length) <==> length >= 0xC0
  {
    if length < 0xC0 {
      assert (length as bv8) < 0xC0;
    } else {
      assert (length as bv8) >= 0xC0;
    }
  }

  /**
    The labels of a name at the front of `data`, up to and including its
    end: a zero byte, or a pointer, whose second byte is skipped. A label
    that runs past the end is read short, after which the next length byte
    cannot be read, so it fails too.
  */
  function ReadLabels(data: seq<byte>): (r: Result<Read<seq<string>>, DecodeError>)
    ensures r.Ok? ==> |r.value.rest| < |data|
  {
    if |data| == 0 then Err(EndOfStream)
    else
      var length := data[0];
      if length == 0 then Ok(Read([], data[1..]))
      else if IsPointer(length) then
        if |data| >= 2 then Ok(Read([], data[2..])) else Err(EndOfStream)
      else if 1 + length > |data| then Err(EndOfStream)
      else
        match ReadLabels(data[1 + length..])
        case Err(e) => Err(e)
        case Ok(tail) => Ok(Read([AsciiString(data[1..1 + length])] + tail.value, tail.rest))
  }

  /** `ReadDomainName`: the labels joined with dots. */
  function ReadName(data: seq<byte>): (r: Result<Read<string>, DecodeError>)
    ensures r.Ok? ==> |r.value.rest| < |data|
  {
    match ReadLabels(data)
    case Err(e) => Err(e)
    case Ok(r) => Ok(Read(Join(r.value, '.'), r.rest))
  }

  /** A question: its name, then its type and class. */
  function ReadQuestion(data: seq<byte>): (r: Result<Read<Question>, DecodeError>)
    ensures r.Ok? ==> |r.value.rest| < |data|
  {
    match ReadName(data)
    case Err(e) => Err(e)
    case Ok(n) =>
      if |n.rest| < 4 then Err(EndOfStream)
      else Ok(Read(Question(n.value, Uint16At(n.rest, 0), Uint16At(n.rest, 2)), n.rest[4..]))
  }

  /** Exactly `count` questions, one after the other, or the first failure. */
  function ReadQuestions(data: seq<byte>, count: nat): (r: Result<Read<seq<Question>>, DecodeError>)
    ensures r.Ok? ==> |r.value.value| == count && |r.value.rest| <= |data|
    decreases count
  {
    if count == 0 then Ok(Read([], data))
    else
      match ReadQuestion(data)
      case Err(e) => Err(e)
      case Ok(q) =>
        match ReadQuestions(q.rest, count - 1)
        case Err(e) => Err(e)
        case Ok(tail) => Ok(Read([q.value] + tail.value, tail.rest))
  }

  /**
    `DnsMessage.FromBytes`. Fails when the twelve header bytes are not all
    there, or when the input ends before the declared number of questions
    has been read. Answers are never read; bytes after the last question
    are ignored.
  */
  function Decode(data: seq<byte>): (r: Result<Message, DecodeError>)
    ensures |data| < HeaderLength ==> r.Err?
    ensures r.Ok? ==>
      && r.value.transactionId == Uint16At(data, 0)
      && r.value.flags == Uint16At(data, 2)
      && r.value.questionCount == Uint16At(data, 4)
      && r.value.answerCount == Uint16At(data, 6)
      && r.value.authorityCount == Uint16At(data, 8)
      && r.value.additionalCount == Uint16At(data, 10)
      && |r.value.questions| == r.value.questionCount
      && r.value.answers == []
  {
    if |data| < HeaderLength then Err(EndOfStream)
    else
      var count := Uint16At(data, 4);
      match ReadQuestions(data[HeaderLength..], count)
      case Err(e) => Err(e)
      case Ok(qs) =>
        Ok(Message(Uint16At(data, 0), Uint16At(data, 2), count, Uint16At(data, 6),
                   Uint16At(data, 8), Uint16At(data, 10), qs.value, []))
  }

  // ---------------------------------------------------------------------
  // Reading back what was written
  // ---------------------------------------------------------------------

  lemma Uint16AtEncoded(x: uint16, rest: seq<byte>)
    ensures |BigEndian16(x) + rest| >= 2 && Uint16At(BigEndian16(x) + rest, 0) == x
  {
    var b := BigEndian16(x) + rest;
    assert b[0] == BigEndian16(x)[0] && b[1] == BigEndian16(x)[1];
  }

  /** The labels `labels` in front of whatever `r` read. */
  function PrependLabels(labels: seq<string>, r: Result<Read<seq<string>>, DecodeError>): Result<Read<seq<string>>, DecodeError>
  {
    match r
    case Err(e) => Err(e)
    case Ok(tail) => Ok(Read(labels + tail.value, tail.rest))
  }

  lemma PrependNothing(r: Result<Read<seq<string>>, DecodeError>)
    ensures PrependLabels([], r) == r
  {
    match r
    case Err(_) =>
    case Ok(x) => assert [] + x.value == x.value;
  }

  lemma PrependTwice(a: seq<string>, b: seq<string>, r: Result<Read<seq<string>>, DecodeError>)
    ensures PrependLabels(a, PrependLabels(b, r)) == PrependLabels(a + b, r)
  {
    match r
    case Err(_) =>
    case Ok(x) => assert a + (b + x.value) == (a + b) + x.value;
  }

  /** One encoded non-empty label is read back as itself. */
  lemma ReadOneLabel(p: string, rest: seq<byte>)
    requires p != "" && LabelFits(p)
    ensures ReadLabels([|p|] + AsciiBytes(p) + rest) == PrependLabels([p], ReadLabels(rest))
  {
    var data := [|p|] + AsciiBytes(p) + rest;
    assert data[0] == |p|;
    PointerIsHighByte(|p|);
    assert data[1..1 + |p|] == AsciiBytes(p);
    assert data[1 + |p|..] == rest;
    AsciiRoundTrip(p);
  }

  /**
    Reading over encoded labels yields their non-empty pieces, in order,
    and continues with what follows them.
  */
  lemma {:induction false} ReadLabelsEncoded(parts: seq<string>, rest: seq<byte>)
    requires forall k :: 0 <= k < |parts| ==> LabelFits(parts[k])
    ensures ReadLabels(EncodeLabels(parts) + rest) == PrependLabels(NonEmptyLabels(parts), ReadLabels(rest))
    decreases |parts|
  {
    if |parts| == 0 {
      assert EncodeLabels(parts) + rest == rest;
      PrependNothing(ReadLabels(rest));
    } else if parts[0] == "" {
      assert EncodeLabels(parts) + rest == EncodeLabels(parts[1..]) + rest;
      ReadLabelsEncoded(parts[1..], rest);
    } else {
      var p := parts[0];
      var tail := EncodeLabels(parts[1..]) + rest;
      assert EncodeLabels(parts) + rest == [|p|] + AsciiBytes(p) + tail;
      ReadOneLabel(p, tail);
      ReadLabelsEncoded(parts[1..], rest);
      assert NonEmptyLabels(parts) == [p] + NonEmptyLabels(parts[1..]);
      PrependTwice([p], NonEmptyLabels(parts[1..]), ReadLabels(rest));
    }
  }

  /** A name written by the encoder reads back as its canonical form, leaving what follows it. */
  lemma ReadNameEncoded(name: string, rest: seq<byte>)
    requires Encodable(name)
    ensures ReadName(EncodeName(name) + rest) == Ok(Read(CanonicalName(name), rest))
  {
    var parts := Split(name, '.');
    var after := [0] + rest;
    assert EncodeName(name) + rest == EncodeLabels(parts) + after;
    ReadLabelsEncoded(parts, after);
    assert after[0] == 0 && after[1..] == rest;
    assert NonEmptyLabels(parts) + [] == NonEmptyLabels(parts);
  }

  /**
    A compression pointer after some labels ends the name: the name is the
    labels read so far, and the pointer's two bytes are consumed.
  */
  lemma ReadNameStopsAtPointer(parts: seq<string>, pointer: byte, offset: byte, rest: seq<byte>)
    requires forall k :: 0 <= k < |parts| ==> LabelFits(parts[k])
    requires pointer >= 0xC0
    ensures ReadName(EncodeLabels(parts) + ([pointer, offset] + rest))
         == Ok(Read(Join(NonEmptyLabels(parts), '.'), rest))
  {
    var after := [pointer, offset] + rest;
    ReadLabelsEncoded(parts, after);
    PointerIsHighByte(pointer);
    assert after[2..] == rest;
    assert NonEmptyLabels(parts) + [] == NonEmptyLabels(parts);
  }

  function CanonicalQuestion(q: Question): Question
  {
    q.(name := CanonicalName(q.name))
  }

  function CanonicalQuestions(qs: seq<Question>): (r: seq<Question>)
    ensures |r| == |qs|
  {
    if |qs| == 0 then [] else [CanonicalQuestion(qs[0])] + CanonicalQuestions(qs[1..])
  }

  /** Two 16-bit fields written in front of `rest` read back, and leave `rest`. */
  lemma FieldsEncoded(a: uint16, b: uint16, rest: seq<byte>)
    ensures var f := BigEndian16(a) + BigEndian16(b) + rest;
      |f| >= 4 && Uint16At(f, 0) == a && Uint16At(f, 2) == b && f[4..] == rest
  {
    var f := BigEndian16(a) + BigEndian16(b) + rest;
    assert f[0] == BigEndian16(a)[0] && f[1] == BigEndian16(a)[1];
    assert f[2] == BigEndian16(b)[0] && f[3] == BigEndian16(b)[1];
  }

  /** A question whose name reads as `name`, followed by `fields`. */
  lemma ReadQuestionWith(data: seq<byte>, name: string, fields: seq<byte>)
    requires ReadName(data) == Ok(Read(name, fields)) && |fields| >= 4
    ensures ReadQuestion(data) == Ok(Read(Question(name, Uint16At(fields, 0), Uint16At(fields, 2)), fields[4..]))
  {
  }

  lemma ReadQuestionEncoded(q: Question, rest: seq<byte>)
    requires Encodable(q.name)
    ensures ReadQuestion(EncodeQuestion(q) + rest) == Ok(Read(CanonicalQuestion(q), rest))
  {
    var fields := BigEndian16(q.qtype) + BigEndian16(q.qclass) + rest;
    assert EncodeQuestion(q) + rest == EncodeName(q.name) + fields;
    ReadNameEncoded(q.name, fields);
    FieldsEncoded(q.qtype, q.qclass, rest);
    ReadQuestionWith(EncodeQuestion(q) + rest, CanonicalName(q.name), fields);
  }

  /** Encoded questions read back, canonicalised, in order, leaving what follows them. */
  lemma {:induction false} ReadQuestionsEncoded(qs: seq<Question>, rest: seq<byte>)
    requires forall k :: 0 <= k < |qs| ==> Encodable(qs[k].name)
    ensures ReadQuestions(EncodeQuestions(qs) + rest, |qs|) == Ok(Read(CanonicalQuestions(qs), rest))
    decreases |qs|
  {
    if |qs| == 0 {
      assert EncodeQuestions(qs) + rest == rest;
    } else {
      var tail := EncodeQuestions(qs[1..]) + rest;
      assert EncodeQuestions(qs) + rest == EncodeQuestion(qs[0]) + tail;
      ReadQuestionEncoded(qs[0], tail);
      ReadQuestionsEncoded(qs[1..], rest);
    }
  }

  /** The encoding of a concatenation is the concatenation of the encodings. */
  lemma {:induction false} EncodeQuestionsAppend(a: seq<Question>, b: seq<Question>)
    ensures EncodeQuestions(a + b) == EncodeQuestions(a) + EncodeQuestions(b)
    decreases |a|
  {
    if |a| > 0 {
      assert (a + b)[1..] == a[1..] + b;
      EncodeQuestionsAppend(a[1..], b);
    } else {
      assert a + b == b;
    }
  }

  /** What follows the header of an encoding: the questions, then the answers. */
  lemma EncodeBody(m: Message)
    ensures Encode(m)[HeaderLength..] == EncodeQuestions(m.questions) + EncodeAnswers(m.answers)
  {
  }

  /** Decoding a message whose header was read, given how its questions read. */
  lemma DecodeWith(data: seq<byte>, questions: Read<seq<Question>>)
    requires |data| >= HeaderLength
    requires ReadQuestions(data[HeaderLength..], Uint16At(data, 4)) == Ok(questions)
    ensures Decode(data) == Ok(Message(Uint16At(data, 0), Uint16At(data, 2), Uint16At(data, 4),
      Uint16At(data, 6), Uint16At(data, 8), Uint16At(data, 10), questions.value, []))
  {
  }

  /**
    Decoding an encoded message gives back its id, flags and authority and
    additional counts, the list lengths as question and answer counts, the
    questions (canonicalised; as many as the 16-bit count field says) and
    no answers.
  */
  lemma DecodeEncode(m: Message)
    requires forall k :: 0 <= k < |m.questions| ==> Encodable(m.questions[k].name)
    ensures Decode(Encode(m)) == Ok(Message(
      m.transactionId, m.flags, Low16(|m.questions|), Low16(|m.answers|),
      m.authorityCount, m.additionalCount,
      CanonicalQuestions(m.questions[..Low16(|m.questions|)]), []))
  {
    var read := ReadEncodedQuestions(m, Low16(|m.questions|));
    DecodeWith(Encode(m), read);
  }

  /** The questions part of an encoding, read with a count no larger than the list: that many questions, canonicalised. */
  lemma ReadEncodedQuestions(m: Message, count: nat) returns (read: Read<seq<Question>>)
    requires count <= |m.questions|
    requires forall k :: 0 <= k < |m.questions| ==> Encodable(m.questions[k].name)
    ensures ReadQuestions(Encode(m)[HeaderLength..], count) == Ok(read)
    ensures read.value == CanonicalQuestions(m.questions[..count])
  {
    var front, back := m.questions[..count], m.questions[count..];
    var after := EncodeQuestions(back) + EncodeAnswers(m.answers);
    EncodeSplit(m, count);
    ReadQuestionsEncoded(front, after);
    read := Read(CanonicalQuestions(front), after);
  }

  lemma EncodeSplit(m: Message, count: nat)
    requires count <= |m.questions|
    ensures Encode(m)[HeaderLength..]
         == EncodeQuestions(m.questions[..count]) + (EncodeQuestions(m.questions[count..]) + EncodeAnswers(m.answers))
  {
    var front, back := m.questions[..count], m.questions[count..];
    assert front + back == m.questions;
    EncodeQuestionsAppend(front, back);
    EncodeBody(m);
  }

  lemma {:induction false} NonEmptyLabelsOfFullLabels(parts: seq<string>)
    requires forall k :: 0 <= k < |parts| ==> parts[k] != ""
    ensures NonEmptyLabels(parts) == parts
    decreases |parts|
  {
    if |parts| > 0 {
      NonEmptyLabelsOfFullLabels(parts[1..]);
    }
  }

  /** A well-formed name is encodable and is its own canonical form. */
  lemma WellFormedNameIsCanonical(name: string)
    requires WellFormedName(name)
    ensures Encodable(name) && CanonicalName(name) == name
  {
    if name != "" {
      NonEmptyLabelsOfFullLabels(Split(name, '.'));
    }
  }

  /** Canonicalising a list of questions whose names are already canonical changes nothing. */
  lemma {:induction false} CanonicalQuestionsOfCanonical(qs: seq<Question>)
    requires forall k :: 0 <= k < |qs| ==> CanonicalName(qs[k].name) == qs[k].name
    ensures CanonicalQuestions(qs) == qs
    decreases |qs|
  {
    if |qs| > 0 {
      CanonicalQuestionsOfCanonical(qs[1..]);
    }
  }

  /**
    Round trip: when there are fewer than 65536 questions and every question
    name is well formed, decoding the encoding keeps the transaction id, the
    flags and the question list.
  */
  lemma RoundTrip(m: Message)
    requires |m.questions| < 0x1_0000
    requires forall k :: 0 <= k < |m.questions| ==> WellFormedName(m.questions[k].name)
    ensures Decode(Encode(m)).Ok?
    ensures Decode(Encode(m)).value.transactionId == m.transactionId
    ensures Decode(Encode(m)).value.flags == m.flags
    ensures Decode(Encode(m)).value.questions == m.questions
  {
    forall k | 0 <= k < |m.questions|
      ensures Encodable(m.questions[k].name) && CanonicalName(m.questions[k].name) == m.questions[k].name
    {
      WellFormedNameIsCanonical(m.questions[k].name);
    }
    DecodeEncode(m);
    assert m.questions[..|m.questions|] == m.questions;
    CanonicalQuestionsOfCanonical(m.questions);
  }

  // ---------------------------------------------------------------------
  // Input beyond the questions, and input that stops short
  // ---------------------------------------------------------------------

  /** The same result with `extra` appended to what is left unread. */
  function Extended<T>(r: Result<Read<T>, DecodeError>, extra: seq<byte>): Result<Read<T>, DecodeError>
  {
    match r
    case Err(e) => Err(e)
    case Ok(x) => Ok(Read(x.value, x.rest + extra))
  }

  lemma {:induction false} ReadLabelsExtend(data: seq<byte>, extra: seq<byte>)
    requires ReadLabels(data).Ok?
    ensures ReadLabels(data + extra) == Extended(ReadLabels(data), extra)
    decreases |data|
  {
    var length := data[0];
    assert (data + extra)[0] == length;
    if length != 0 && !IsPointer(length) {
      assert (data + extra)[1..1 + length] == data[1..1 + length];
      assert (data + extra)[1 + length..] == data[1 + length..] + extra;
      ReadLabelsExtend(data[1 + length..], extra);
    } else if length != 0 {
      assert (data + extra)[2..] == data[2..] + extra;
    } else {
      assert (data + extra)[1..] == data[1..] + extra;
    }
  }

  lemma ReadQuestionExtend(data: seq<byte>, extra: seq<byte>)
    requires ReadQuestion(data).Ok?
    ensures ReadQuestion(data + extra) == Extended(ReadQuestion(data), extra)
  {
    ReadLabelsExtend(data, extra);
    var n := ReadLabels(data).value.rest;
    var m := n + extra;
    assert m[0] == n[0] && m[1] == n[1] && m[2] == n[2] && m[3] == n[3];
    assert m[4..] == n[4..] + extra;
  }

  lemma {:induction false} ReadQuestionsExtend(data: seq<byte>, extra: seq<byte>, count: nat)
    requires ReadQuestions(data, count).Ok?
    ensures ReadQuestions(data + extra, count) == Extended(ReadQuestions(data, count), extra)
    decreases count
  {
    if count > 0 {
      ReadQuestionExtend(data, extra);
      ReadQuestionsExtend(ReadQuestion(data).value.rest, extra, count - 1);
    }
  }

  /** Inputs that agree on their first twelve bytes carry the same header fields. */
  lemma SameHeader(a: seq<byte>, b: seq<byte>)
    requires |a| >= HeaderLength && |b| >= HeaderLength
    requires a[..HeaderLength] == b[..HeaderLength]
    ensures Uint16At(a, 0) == Uint16At(b, 0) && Uint16At(a, 2) == Uint16At(b, 2)
    ensures Uint16At(a, 4) == Uint16At(b, 4) && Uint16At(a, 6) == Uint16At(b, 6)
    ensures Uint16At(a, 8) == Uint16At(b, 8) && Uint16At(a, 10) == Uint16At(b, 10)
  {
    assert forall k :: 0 <= k < HeaderLength ==> a[k] == a[..HeaderLength][k] == b[k];
  }

  /** Bytes after the last question do not change what is decoded. */
  lemma DecodeIgnoresTrailingBytes(data: seq<byte>, extra: seq<byte>)
    requires Decode(data).Ok?
    ensures Decode(data + extra) == Decode(data)
  {
    var d := data + extra;
    var count := Uint16At(data, 4);
    assert d[..HeaderLength] == data[..HeaderLength];
    SameHeader(data, d);
    assert d[HeaderLength..] == data[HeaderLength..] + extra;
    var read := ReadQuestions(data[HeaderLength..], count).value;
    ReadQuestionsExtend(data[HeaderLength..], extra, count);
    DecodeWith(data, read);
    DecodeWith(d, Read(read.value, read.rest + extra));
  }

  /** When the header was read but the questions were not, decoding fails. */
  lemma DecodeFailsIn(data: seq<byte>)
    requires |data| >= HeaderLength
    requires ReadQuestions(data[HeaderLength..], Uint16At(data, 4)).Err?
    ensures Decode(data).Err?
  {
  }

  /** Questions that are read to the very end of some input cannot be read from a proper prefix of it. */
  lemma ReadQuestionsNeedAll(data: seq<byte>, missing: seq<byte>, count: nat, values: seq<Question>)
    requires missing != []
    requires ReadQuestions(data + missing, count) == Ok(Read(values, []))
    ensures ReadQuestions(data, count).Err?
  {
    if ReadQuestions(data, count).Ok? {
      ReadQuestionsExtend(data, missing, count);
    }
  }

  /**
    A message without answers, with fewer than 65536 questions whose names
    are encodable, cannot be decoded from any proper prefix of its encoding:
    some read always runs off the end.
  */
  lemma DecodeRejectsTruncation(m: Message, k: nat)
    requires |m.questions| < 0x1_0000 && m.answers == []
    requires forall j :: 0 <= j < |m.questions| ==> Encodable(m.questions[j].name)
    requires k < |Encode(m)|
    ensures Decode(Encode(m)[..k]).Err?
  {
    var b := Encode(m);
    var prefix := b[..k];
    if k >= HeaderLength {
      assert prefix[..HeaderLength] == b[..HeaderLength];
      SameHeader(prefix, b);
      var body, missing := prefix[HeaderLength..], b[k..];
      assert body + missing == EncodeQuestions(m.questions) + [] by {
        assert body + missing == b[HeaderLength..];
        EncodeBody(m);
      }
      ReadQuestionsEncoded(m.questions, []);
      ReadQuestionsNeedAll(body, missing, |m.questions|, CanonicalQuestions(m.questions));
      DecodeFailsIn(prefix);
    }
  }

  // ---------------------------------------------------------------------
  // Size and shape of the encoding
  // ---------------------------------------------------------------------

  /** Wire size of labels: a length byte plus the characters, for each. */
  function LabelsWireLength(labels: seq<string>): nat
  {
    if |labels| == 0 then 0 else 1 + |labels[0]| + LabelsWireLength(labels[1..])
  }

  /** Wire size of a name: its non-empty labels and the terminating zero. */
  function NameWireLength(name: string): nat
  {
    LabelsWireLength(NonEmptyLabels(Split(name, '.'))) + 1
  }

  function QuestionsWireLength(qs: seq<Question>): nat
  {
    if |qs| == 0 then 0 else NameWireLength(qs[0].name) + 4 + QuestionsWireLength(qs[1..])
  }

  function AnswersWireLength(rs: seq<Answer>): nat
  {
    if |rs| == 0 then 0
    else NameWireLength(rs[0].name) + 10 + |rs[0].data| + AnswersWireLength(rs[1..])
  }

  /** Encoding labels writes exactly the non-empty ones; the empty pieces contribute nothing. */
  lemma {:induction false} EncodeLabelsSkipsEmpty(parts: seq<string>)
    ensures EncodeLabels(parts) == EncodeLabels(NonEmptyLabels(parts))
    ensures |EncodeLabels(parts)| == LabelsWireLength(NonEmptyLabels(parts))
    decreases |parts|
  {
    if |parts| > 0 {
      EncodeLabelsSkipsEmpty(parts[1..]);
      if parts[0] != "" {
        var rest := NonEmptyLabels(parts[1..]);
        assert ([parts[0]] + rest)[1..] == rest;
      }
    }
  }

  /** The encoded name is determined by the non-empty labels alone. */
  lemma EncodeNameSkipsEmptyLabels(name: string)
    ensures EncodeName(name) == EncodeLabels(NonEmptyLabels(Split(name, '.'))) + [0]
    ensures |EncodeName(name)| == NameWireLength(name)
  {
    EncodeLabelsSkipsEmpty(Split(name, '.'));
  }

  lemma {:induction false} QuestionsLength(qs: seq<Question>)
    ensures |EncodeQuestions(qs)| == QuestionsWireLength(qs)
    decreases |qs|
  {
    if |qs| > 0 {
      EncodeNameSkipsEmptyLabels(qs[0].name);
      QuestionsLength(qs[1..]);
    }
  }

  lemma {:induction false} AnswersLength(rs: seq<Answer>)
    ensures |EncodeAnswers(rs)| == AnswersWireLength(rs)
    decreases |rs|
  {
    if |rs| > 0 {
      EncodeNameSkipsEmptyLabels(rs[0].name);
      AnswersLength(rs[1..]);
    }
  }

  /**
    Exact size: twelve header bytes, each question's name plus four, each
    answer's name plus ten plus its data.
  */
  lemma EncodedLength(m: Message)
    ensures |Encode(m)| == HeaderLength + QuestionsWireLength(m.questions) + AnswersWireLength(m.answers)
  {
    QuestionsLength(m.questions);
    AnswersLength(m.answers);
  }

  lemma {:induction false} EncodeLabelsAppend(a: seq<string>, b: seq<string>)
    ensures EncodeLabels(a + b) == EncodeLabels(a) + EncodeLabels(b)
    decreases |a|
  {
    if |a| == 0 {
      assert a + b == b;
    } else {
      assert (a + b)[1..] == a[1..] + b;
      EncodeLabelsAppend(a[1..], b);
    }
  }

  /** A trailing dot only adds an empty last piece, which is not written: `example.com.` is sent as `example.com`. */
  lemma TrailingDotIgnored(name: string)
    ensures EncodeName(name + ".") == EncodeName(name)
  {
    var parts := Split(name, '.');
    JoinAppend(parts, "", '.');
    assert Join(parts + [""], '.') == name + ".";
    SplitJoin(parts + [""], '.');
    EncodeLabelsAppend(parts, [""]);
    assert EncodeLabels([""]) == [];
  }

  /** The pieces of `a.b` are those of `a` followed by those of `b`. */
  lemma SplitAtDot(a: string, b: string)
    ensures Split(a + "." + b, '.') == Split(a, '.') + Split(b, '.')
  {
    var x, y := Split(a, '.'), Split(b, '.');
    JoinConcat(x, y, '.');
    SplitJoin(x + y, '.');
  }

  /** An empty first piece writes nothing. */
  lemma EncodeLabelsSkipsLeadingEmpty(parts: seq<string>)
    ensures EncodeLabels([""] + parts) == EncodeLabels(parts)
  {
    assert ([""] + parts)[1..] == parts;
  }

  /** A piece that starts with a dot splits into an empty piece and the pieces after that dot. */
  lemma SplitAtLeadingDot(b: string)
    ensures Split("." + b, '.') == [""] + Split(b, '.')
  {
    var s := "." + b;
    assert s[0] == '.' && s[1..] == b;
  }

  /**
    A doubled dot only adds an empty piece, which is not written:
    `example..com`, that is `example` + `.` + `.com`, is sent as `example.com`.
  */
  lemma DoubledDotIgnored(a: string, b: string)
    ensures EncodeName(a + "." + ("." + b)) == EncodeName(a + "." + b)
  {
    var x, y := Split(a, '.'), Split(b, '.');
    assert EncodeLabels(Split(a + "." + ("." + b), '.')) == EncodeLabels(x + y) by {
      SplitAtDot(a, "." + b);
      SplitAtLeadingDot(b);
      EncodeLabelsAppend(x, [""] + y);
      EncodeLabelsSkipsLeadingEmpty(y);
      EncodeLabelsAppend(x, y);
    }
    SplitAtDot(a, b);
  }

  /** The empty name is the single root byte. */
  lemma RootNameExample()
    ensures EncodeName("") == [0]
  {
  }
}
