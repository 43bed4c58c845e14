# PrivateDNS core in Dafny

PrivateDNS is a filtering DNS proxy. It receives DNS queries over UDP and
decodes them. When the first question names a domain on its allow-list,
it forwards the raw query to the first upstream resolver that answers.
Otherwise it replies itself with an A record pointing at 127.0.0.1. This
project models the deterministic logic inside that plumbing and proves
what it guarantees. It has four parts:

- `DnsMessage` (`dns_message.dfy`) is the wire codec of `DnsMessage.ToBytes` and `FromBytes`:
  - It follows the header, question and resource-record layout of section 4.1 of RFC 1035, with big-endian integers.
  - The `(short)` and `(byte)` casts and the ASCII `?` replacement are written out, with label lengths counted in characters (see the `DnsMessage.EncodeName` line under "Left out" for characters outside the Basic Multilingual Plane).
  - Decoding consumes a suffix of the input, so a reader returns the value and the bytes after it.
  - Compression pointers (section 4.1.4) end a name and are not followed. Answers are never decoded.
- `DnsConfiguration` (`dns_configuration.dfy`) is the allow-list of `DnsConfigurationService`:
  - The case-insensitive hash set is a map from the folded spelling to the first spelling stored.
  - It provides `IsAllowedDomain` with exact and `*.suffix` entries, plus add, remove, reload over abstract file contents, and listing.
- `DnsForwarder` (`dns_forwarder.dfy`) covers endpoint parsing, the default resolver list, and the all-or-nothing parse of the configured list:
  - Forwarding tries servers in order and takes the first reply.
  - The network is an oracle `send(i, endpoint, query)` that yields `Reply(bytes)` or `Failed` for the attempt at position `i` of the server list. A server listed twice is thus attempted twice, and the two attempts can end differently.
- `DnsProxy` (`dns_proxy.dfy`) covers `CreateBlockedResponse` and the per-datagram decision of `ProcessDnsRequestAsync`. Its result is `None` when no response is sent.

Three supporting modules hold shared pieces:
- `Wrappers` provides `Option`, `Result` and a first-failure map.
- `Bytes` provides bounded integers and big-endian fields.
- `Text` models the .NET `Split`, `Join`, `TrimEnd`, `IsNullOrWhiteSpace` and ordinal case folding that the allow-list relies on.

Where the code and its tests disagree, the model follows the code:
- Decoding short input fails with a single `EndOfStream` error, which is what `BinaryReader` raises. The tests expect an `ArgumentException`.
- `ForwardDnsQueryAsync` has no check for an empty query. An empty query is sent like any other.
- Cancellation inside an attempt is caught by the per-server `catch (Exception)`. It is therefore one more failed attempt and is not surfaced as its own error.

## Model

| member | source | states |
|---|---|---|
| Bytes.BigEndian16 | Models/DnsMessage.cs:22-27 | a 16-bit field is two bytes, most significant first, and reading them back gives the value |
| Bytes.BigEndian32 | Models/DnsMessage.cs:43 | the TTL is four bytes, most significant first, and reading them back gives the value |
| Bytes.Low16 | Models/DnsMessage.cs:24-25 | the `(short)` cast of a list count is never more than the count, and equal to it below 65536 |
| Bytes.Low16Wraps | Models/DnsMessage.cs:24-25 | the cast wraps around: counts that differ by a multiple of 65536 are written with the same 16 bits |
| Text.Join | Services/DnsConfigurationService.cs:39 | `string.Join(".", …)` puts one dot between neighbouring pieces; `Text.SplitJoin` shows `Split` undoes it for dot-free pieces |
| Text.IsBlank | Services/DnsConfigurationService.cs:25 | `string.IsNullOrWhiteSpace`: empty, or only characters `char.IsWhiteSpace` accepts; `Text.BlankIgnoresCase` shows case never changes it |
| Text.Split | Services/DnsConfigurationService.cs:36 | `Split('.')` yields at least one piece, no piece holds a dot, and joining the pieces with dots gives back the string |
| Text.SplitJoin | Services/DnsConfigurationService.cs:36-39 | splitting a dot-join of dot-free pieces gives back exactly those pieces |
| Text.JoinedTailFollowsSeparator | Services/DnsConfigurationService.cs:36-40 | each parent domain `Join(".", parts.Skip(i))` for i ≥ 1 is what follows some dot of the name |
| Text.SeparatorStartsJoinedTail | Services/DnsConfigurationService.cs:36-40 | conversely, whatever follows any dot of the name is one of the parent domains the loop tries |
| Text.TrimEnd | Services/DnsConfigurationService.cs:29 | `TrimEnd('.')` is a prefix of the name that does not end in a dot, and everything removed was a dot |
| Text.FoldCharIdentifies | Services/DnsConfigurationService.cs:16 | two characters fold alike exactly when they are equal or the same ASCII letter in its two cases |
| Text.EqualsIgnoreCaseCharacterized | Services/DnsConfigurationService.cs:16 | two spellings are equal ignoring case exactly when they have the same length and at every position hold the same character or the same ASCII letter in the other case |
| Text.BlankIgnoresCase | Services/DnsConfigurationService.cs:25 | two spellings equal up to case are both blank or both not |
| Text.TrimEndIgnoresCase | Services/DnsConfigurationService.cs:29 | trimming trailing dots from two spellings equal up to case removes the same number of characters and leaves spellings equal up to case |
| DnsMessage.AsciiRoundTrip | Models/DnsMessage.cs:88 | ASCII label text survives `Encoding.ASCII` encoding followed by decoding |
| DnsMessage.EncodeHeader | Models/DnsMessage.cs:22-27 | the header is 12 bytes: id, flags, the counts of the question and answer lists, then the authority and additional count fields |
| DnsMessage.Encode | Models/DnsMessage.cs:16-49 | the encoding starts with that header: question and answer counts come from the lists, not from the count properties |
| DnsMessage.PointerIsHighByte | Models/DnsMessage.cs:99 | a length byte is a compression pointer, `(length & 0xC0) == 0xC0`, exactly when it is 192 or more |
| DnsMessage.ReadLabels | Models/DnsMessage.cs:93-107 | reading a name's labels always consumes at least one byte when it succeeds |
| DnsMessage.ReadQuestions | Models/DnsMessage.cs:67-76 | a successful read returns exactly the requested number of questions |
| DnsMessage.Decode | Models/DnsMessage.cs:51-79 | input under 12 bytes fails; a decoded message carries the six header fields as read, exactly QuestionCount questions and no answers |
| DnsMessage.EncodeName | Models/DnsMessage.cs:81-91 | `WriteDomainName`; its meaning is given by `DnsMessage.EncodeNameSkipsEmptyLabels` (the non-empty labels, length-prefixed, then a zero byte) and by `DnsMessage.ReadNameEncoded`, which reads it back |
| DnsMessage.ReadName | Models/DnsMessage.cs:93-109 | `ReadDomainName`: a successful read consumes at least one byte; `DnsMessage.ReadNameEncoded` shows it inverts `EncodeName` |
| DnsMessage.ReadNameEncoded | Models/DnsMessage.cs:81-109 | a name whose labels are ASCII and shorter than 192 reads back as its non-empty labels joined by dots, leaving the bytes after it |
| DnsMessage.ReadNameStopsAtPointer | Models/DnsMessage.cs:97-104 | a pointer ends the name: one more byte is consumed and the name is the labels read so far |
| DnsMessage.ReadQuestionEncoded | Models/DnsMessage.cs:30-35 | an encoded question reads back as its canonical name, type and class |
| DnsMessage.ReadQuestionsEncoded | Models/DnsMessage.cs:66-76 | a run of encoded questions reads back in order, leaving the bytes after them |
| DnsMessage.EncodeQuestionsAppend | Models/DnsMessage.cs:30-35 | the questions of two lists are written one list after the other |
| DnsMessage.DecodeEncode | Models/DnsMessage.cs:16-79 | decoding an encoding keeps id, flags, authority and additional counts, sees the truncated list counts, and reads back the first Low16 questions canonically and no answers |
| DnsMessage.WellFormedNameIsCanonical | Models/DnsMessage.cs:81-109 | a name of ASCII labels of 1 to 63 characters is encodable and reads back unchanged |
| DnsMessage.RoundTrip | Models/DnsMessage.cs:16-79 | with fewer than 65536 questions with well-formed names, decoding the encoding keeps TransactionId, Flags and the question list |
| DnsMessage.DecodeIgnoresTrailingBytes | Models/DnsMessage.cs:66-78 | bytes after the last declared question do not change the decoded message |
| DnsMessage.DecodeFailsIn | Models/DnsMessage.cs:66-78 | when the declared questions cannot all be read, decoding fails |
| DnsMessage.DecodeRejectsTruncation | Models/DnsMessage.cs:56-78 | every proper prefix of an encoded answer-free message fails to decode, including a cut inside a label |
| DnsMessage.EncodeLabelsSkipsEmpty | Models/DnsMessage.cs:83-90 | empty pieces are not written, and the label bytes are 1 + length per non-empty label |
| DnsMessage.EncodeNameSkipsEmptyLabels | Models/DnsMessage.cs:81-91 | a name is its non-empty labels followed by a zero byte, of length Σ(1 + label) + 1 |
| DnsMessage.QuestionsLength | Models/DnsMessage.cs:30-35 | each question takes its name length plus 4 bytes |
| DnsMessage.AnswersLength | Models/DnsMessage.cs:38-46 | each answer takes its name length plus 10 bytes plus its data |
| DnsMessage.EncodedLength | Models/DnsMessage.cs:16-49 | the encoding is 12 + Σ(name + 4) over questions + Σ(name + 10 + data) over answers bytes long |
| DnsMessage.EncodeLabelsAppend | Models/DnsMessage.cs:84-89 | the labels of two runs of pieces are written one run after the other |
| DnsMessage.TrailingDotIgnored | Models/DnsMessage.cs:83-90 | `example.com.` is written exactly as `example.com` |
| DnsMessage.SplitAtDot | Models/DnsMessage.cs:83 | the pieces of `a.b` are the pieces of `a` followed by those of `b` |
| DnsMessage.DoubledDotIgnored | Models/DnsMessage.cs:83-90 | `example..com` is written exactly as `example.com` |
| DnsMessage.RootNameExample | Models/DnsMessage.cs:81-91 | the empty name is the single byte 0 |
| DnsConfiguration.Contains | Services/DnsConfigurationService.cs:32 | `HashSet.Contains` under the ignore-case comparer; `DnsConfiguration.ContainsStoredVariant` gives its meaning |
| DnsConfiguration.ContainsStoredVariant | Services/DnsConfigurationService.cs:16 | a name is in the set exactly when some stored spelling equals it ignoring case |
| DnsConfiguration.Insert | Services/DnsConfigurationService.cs:16 | adding to the case-insensitive set adds the folded key, keeps every stored spelling, and stores the new spelling only when no case variant was present |
| DnsConfiguration.Delete | Services/DnsConfigurationService.cs:107 | removing drops the folded key, whatever its case, and nothing else |
| DnsConfiguration.WildcardFrom | Services/DnsConfigurationService.cs:37-42 | the parent-domain loop finds an entry `*.` + the parts from index j onward for some j at or after its start, and only then |
| DnsConfiguration.IsAllowedDomain | Services/DnsConfigurationService.cs:23-45 | a null, empty or whitespace-only name is never allowed |
| DnsConfiguration.IsAllowedDomainCharacterized | Services/DnsConfigurationService.cs:23-45 | allowed exactly when the name is not blank and, trailing dots trimmed, is listed or `*.` + what follows one of its dots is listed |
| DnsConfiguration.AllowIgnoresCase | Services/DnsConfigurationService.cs:16-33 | two spellings equal up to case get the same decision |
| DnsConfiguration.AllowIgnoresTrailingDot | Services/DnsConfigurationService.cs:29 | a trailing dot on a non-blank name does not change the decision |
| DnsConfiguration.AllowMonotone | Services/DnsConfigurationService.cs:23-45 | a larger set of entries never revokes an allow |
| DnsConfiguration.WildcardAllowsSubdomains | Services/DnsConfigurationService.cs:36-42 | with `*.S` listed, any name of the form `labels.S` is allowed |
| DnsConfiguration.WildcardExcludesItself | Services/DnsConfigurationService.cs:32-42 | `*.S` alone does not allow `S` itself |
| DnsConfiguration.ExactEntriesOnly | Services/DnsConfigurationService.cs:29-44 | with no wildcard entries, a name is allowed exactly when it is not blank and its trimmed form is listed |
| DnsConfiguration.ExactExcludesSubdomains | Services/DnsConfigurationService.cs:32-44 | an exact entry `d` alone does not allow `labels.d` |
| DnsConfiguration.AddAllowedDomain | Services/DnsConfigurationService.cs:94-101 | blank input changes nothing; otherwise the trimmed name's folded key is added and every stored entry is kept, and a name not listed before is stored in its trimmed spelling |
| DnsConfiguration.AddThenAllowed | Services/DnsConfigurationService.cs:94-101 | after adding a non-blank name, that name is allowed |
| DnsConfiguration.AddIdempotent | Services/DnsConfigurationService.cs:94-101 | adding the same name twice is the same as adding it once |
| DnsConfiguration.AddKeepsAllows | Services/DnsConfigurationService.cs:94-101 | adding never revokes an allow |
| DnsConfiguration.RemoveAllowedDomain | Services/DnsConfigurationService.cs:103-110 | blank input changes nothing; otherwise only the trimmed name's entry is removed and every other entry is kept |
| DnsConfiguration.RemoveThenNotListed | Services/DnsConfigurationService.cs:103-110 | after removing a non-blank name, no case variant of its trimmed form is listed |
| DnsConfiguration.RemoveAbsentIsNoOp | Services/DnsConfigurationService.cs:103-110 | removing a name that is not listed is a silent no-op |
| DnsConfiguration.RemoveUndoesAdd | Services/DnsConfigurationService.cs:94-110 | removing a name just added, which was not listed before, restores the set |
| DnsConfiguration.InsertAll | Services/DnsConfigurationService.cs:59-62 | adding a list adds the folded key of every element and keeps every stored entry |
| DnsConfiguration.InsertAllKeepsFirstSpelling | Services/DnsConfigurationService.cs:59-62 | each key new to the set holds the first element of the list with that key, since later case variants are not stored over it |
| DnsConfiguration.AddThenList | PrivateDNS.Tests/Services/DnsConfigurationServiceTests.cs:201-219 | after adding a name not listed before, the listing holds it in its trimmed spelling, along with every spelling stored before |
| DnsConfiguration.LoadConfiguration | Services/DnsConfigurationService.cs:47-92 | every reload keeps the set consistent: one stored spelling per folded key |
| DnsConfiguration.LoadReplaces | Services/DnsConfigurationService.cs:56-62 | after reading a list, a name is listed exactly when it equals, up to case, some trimmed entry of the file, and nothing from before survives |
| DnsConfiguration.LoadAbsentAddsDefaults | Services/DnsConfigurationService.cs:66-82 | a missing file keeps every existing entry, adds the six default patterns, and adds nothing else |
| DnsConfiguration.LoadUnparsableKeeps | Services/DnsConfigurationService.cs:88-91 | content that fails to deserialize leaves the set unchanged |
| DnsConfiguration.GetAllowedDomains | Services/DnsConfigurationService.cs:112-115 | the listing holds each stored spelling exactly once: one per entry, all present, no two equal up to case |
| DnsForwarder.DecimalRoundTrip | Services/DnsForwarder.cs:29 | the decimal spelling of a number reads back as that number |
| DnsForwarder.ParseBounded | Services/DnsForwarder.cs:29 | a number read is at most the bound; the decimal spelling of any number up to the bound is read back as that number; conversely, a number read from digits without a leading zero is spelled by exactly those digits |
| DnsForwarder.CanonicalDigits | Services/DnsForwarder.cs:29 | digits without a superfluous leading zero are exactly the decimal spelling of their value |
| DnsForwarder.ParsedAddressSpelled | Services/DnsForwarder.cs:29 | conversely, an address read from four numbers without leading zeros was written in the usual dotted-quad spelling of the parsed address |
| DnsForwarder.ParseEndpoint | Services/DnsForwarder.cs:26-34 | every rejection is the one error `InvalidEndpoint` carrying the endpoint text; this includes a port above 65535, which the code leaves to `IPEndPoint` and its own exception without the text |
| DnsForwarder.ParseEndpointCharacterized | Services/DnsForwarder.cs:28-33 | accepted exactly when there is one colon, an address before it and a port of at most 65535 after it, and the endpoint is built from those |
| DnsForwarder.IPv4RoundTrip | Services/DnsForwarder.cs:29 | a dotted-quad spelling of an address parses back to it and has no colon |
| DnsForwarder.EndpointRoundTrip | Services/DnsForwarder.cs:26-34 | `address:port` parses back to the endpoint |
| DnsForwarder.RejectsWithoutPort | Services/DnsForwarder.cs:28-32 | text without a colon, such as `8.8.8.8`, is rejected |
| DnsForwarder.RejectsEmptyAddress | Services/DnsForwarder.cs:28-32 | `:53` is rejected |
| DnsForwarder.RejectsEmptyPort | Services/DnsForwarder.cs:28-32 | `8.8.8.8:` is rejected |
| DnsForwarder.RejectsNonNumericPort | Services/DnsForwarder.cs:28-32 | a port with a non-digit, such as `abc`, is rejected |
| DnsForwarder.RejectsBadAddress | Services/DnsForwarder.cs:28-32 | an address that does not parse as four dot-separated numbers up to 255, such as `invalid-ip`, is rejected |
| DnsForwarder.RejectsSecondColon | Services/DnsForwarder.cs:28-32 | any text with two colons, every IPv6 literal included, is rejected |
| DnsForwarder.ParseAll | Services/DnsForwarder.cs:19 | the list parses only when every entry does, keeping length and order; otherwise it fails on the first bad entry |
| DnsForwarder.DefaultUpstreamsParse | Services/DnsForwarder.cs:16-19 | the built-in strings parse to 8.8.8.8, 8.8.4.4, 1.1.1.1 and 1.0.0.1 on port 53, in that order |
| DnsForwarder.Upstreams | Services/DnsForwarder.cs:16-19 | with no configured list the servers are the four public resolvers in order; a configured list is accepted exactly when every entry parses |
| DnsForwarder.FirstReply | Services/DnsForwarder.cs:38-51 | the scan stops at the first position whose attempt replied, and every attempt before it failed |
| DnsForwarder.FirstReplyIs | Services/DnsForwarder.cs:38-51 | the first reply is at position i exactly when every earlier attempt failed and the attempt at i, if any, replied |
| DnsForwarder.Forward | Services/DnsForwarder.cs:36-59 | a reply exists exactly when some attempt replies; it is the first such attempt's reply to the unchanged query, all earlier attempts failed, and otherwise the error is that all upstreams failed |
| DnsForwarder.ForwardDnsQuery | Services/DnsForwarder.cs:36-59 | the loop returns the first reply, contacts the servers up to and including the one that replied, and all of them when none replies |
| DnsForwarder.LaterServersUntouched | Services/DnsForwarder.cs:38-51 | once a server replies, no later server is used |
| DnsForwarder.RepeatedServerRetried | Services/DnsForwarder.cs:38-51 | a server listed twice whose first attempt times out and whose second replies yields that reply |
| DnsProxy.LoopbackAnswer | Services/DnsProxyService.cs:128-135 | on the wire a blocked answer is the question's name followed by the bytes 0 1 0 1 0 0 1 44 0 4 127 0 0 1: type A, class IN, TTL 300, four bytes of data, 127.0.0.1 |
| DnsProxy.BlockedAnswers | Services/DnsProxyService.cs:124-137 | there is at most one answer per question, each the loopback answer of some A question, and none when no question is of type A |
| DnsProxy.BlockedAnswersAppend | Services/DnsProxyService.cs:124-137 | answers follow question order: the answers for two runs of questions are those of each run in turn |
| DnsProxy.BlockedAnswersSingle | Services/DnsProxyService.cs:126-136 | one question gets one loopback answer when it is of type A and none otherwise |
| DnsProxy.BlockedResponseToOneA | Services/DnsProxyService.cs:114-140 | the blocked response to a single A question is, byte by byte, the request's id, 0x81 0x80, counts 1, 1, 0, 0, the question as asked, and its loopback answer |
| DnsProxy.CreateBlockedResponse | Services/DnsProxyService.cs:114-140 | the response header carries the request's id, flags 0x8180, the question and answer counts, and zero authority and additional counts |
| DnsProxy.BlockedResponseDecodes | Services/DnsProxyService.cs:114-140 | a client decoding the blocked response gets the request's id, flags 0x8180 and the request's questions in order |
| DnsProxy.Decide | Services/DnsProxyService.cs:77-101 | a request is answered locally only when its bytes decode to that request |
| DnsProxy.ProcessDnsRequest | Services/DnsProxyService.cs:73-112 | a dropped request gets no response and a blocked request always gets one |
| DnsProxy.UndecodableDropped | Services/DnsProxyService.cs:108-111 | input that fails to decode gets no response |
| DnsProxy.NoQuestionDropped | Services/DnsProxyService.cs:79-83 | a request whose header declares no question gets no response |
| DnsProxy.AllowedForwardsRawRequest | Services/DnsProxyService.cs:85-96 | when the first question's name is allowed, the response is the reply of the first attempt that replies to the raw request bytes, every earlier attempt having failed, and there is none when no server replies |
| DnsProxy.DeniedGetsLoopback | Services/DnsProxyService.cs:97-101 | when the first question's name is not allowed, the response is the blocked response for the decoded request |
| DnsProxy.BlockedKeepsTransactionId | Services/DnsProxyService.cs:97-101 | the blocked response starts with the transaction id of the request bytes |

## Left out

- UDP sockets: the listen loop, the `Task.Run` per datagram, the 5-second timeouts, and sending the response are I/O and concurrency. The oracle `send(i, server, query)` stands for the `i`-th attempt of one forwarding, each with its own socket and timeout, and the `None`/`Some` result stands for the final send.
- The `_udpServer != null` guard before sending the response concerns the socket's lifetime, which is not modelled.
- Logging calls have no effect on results.
- The JSON file itself is reduced to abstract contents: absent, unparsable, or a list. This covers reading, serialising, and the fire-and-forget save after every add and remove.
- A `null` element inside the JSON array is not modelled. It throws after `Clear`, and Dafny strings cannot be null.
- Null arguments: a null name behaves like the empty string, which every operation treats as blank.
- Thread safety of the shared set: the code takes no lock, and concurrent interleavings are out of scope.
- The order in which `GetAllowedDomains` lists entries is the hash set's enumeration order. The model promises only the contents.
- Answer records in incoming messages are never decoded, as in the code.
- Constructor and DI wiring, the port setting, `Program.cs`, `Worker.cs`, and the interfaces are not part of this model.
- Text.Fold: folds ASCII letters only. `StringComparer.OrdinalIgnoreCase` also folds non-ASCII letters, which this model compares exactly.
- DnsForwarder.ParseEndpoint: accepts only four dot-separated decimal numbers for the address and decimal digits for the port. `IPAddress.TryParse` also accepts shorter IPv4 forms, and `int.TryParse` also accepts signs and surrounding whitespace. The model also reads a part with a leading zero as decimal, where `IPAddress.TryParse` reads it as octal.
- DnsForwarder.ParseAll: reports only the first invalid entry. The code's exception type and message are collapsed into `InvalidEndpoint(text)`.
- DnsMessage.RoundTrip: promised only for fewer than 65536 questions whose names are ASCII labels of 1 to 63 characters. `DnsMessage.DecodeEncode` covers every name whose labels are ASCII and shorter than 192 characters. Longer labels get a length byte that reads as a pointer or wraps modulo 256, and non-ASCII characters become `?`; both are modelled but not round-tripped.
- DnsMessage.EncodeName: label lengths count Unicode scalar values, where C#'s `part.Length` counts UTF-16 code units. For a label holding one character outside the Basic Multilingual Plane, such as U+1F600, the code writes length byte 2. The model writes length byte 1 and one `?` byte. The lengths `DnsMessage.EncodeNameSkipsEmptyLabels` and `DnsMessage.EncodedLength` state are therefore the model's and not the code's for such names. The round-trip lemmas only cover ASCII labels and are unaffected.
- DnsMessage.Decode: every failure is the single error `EndOfStream`. That is the only exception `BinaryReader` raises on these paths.
