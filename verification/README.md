# Verification of the HTTP/2 client core

A Dafny model of the parts of the HTTP/2 XMLHttpRequest client in which something can go wrong quietly:
the URL parser it bundles, the output pump of a session, the registry and the states of its streams, its
codecs, and the Internet checksum of its ping test. `dafny verify dfyconfig.toml` checks everything.

## What is proved

**The URL parser** (`Url*.dfy`, `HostScan.dfy`). `http_parser_parse_url` drives one state machine over the
URL and `http_parse_host` a second one over the host run that the first has marked. Each machine's live runs
are shown to be in bijection with declaratively described outlines (`UrlScan`, `HostScan`); the two loops,
with their 16-bit offsets and lengths, are shown to compute a function `Parsed` of the buffer
(`UrlParser.HttpParserParseUrl`, on buffers of every length); and `Parsed` is shown to accept exactly an
unambiguous grammar and to report exactly the components of the derivation (`UrlTheorems`). From that follow
the layout of the fields, the meaning of the port number (`UrlLayout`), how much of a URL can be printed
again from its fields (`UrlRebuild`), and that a URL printed from ordinary parts is found again (`UrlPrint`). For longer buffers the exact condition under which the answer is still
the true one is proved (`UrlTheorems.ReportedIffFits`).

**A request's way** (`Request.dfy`, `UriPatterns.dfy`). `proccessUri` takes a URI apart, `fetch` puts it together with its port
spelled out, and `submit` parses that and builds `:scheme` and `:path`. The three are shown to agree, and a
query that went through `encodeURIComponent` is shown to come back through the parser and
`decodeURIComponent`.

**The output pump** (`Pump.dfy`). `write` and its completion handler, over a 64 KiB array, refine steps on
values; in every run the buffer is safe and the octets taken from the protocol engine are those sent,
buffered and pending, in that order; when a session stops is characterised by the events.

**Streams** (`Streams.dfy`, `SessionCallbacks.dfy`). The callbacks mutate a map of shared stream objects;
each is shown to be one step on a map of values, and over all interleavings of steps streams do not
interfere, bodies are delivered whole and in order, states climb, and what is registered, idle or ended is
characterised by the events received. `SessionCallbacks.PerformAll` carries this over to the session object,
after any sequence of events.

**Codecs and the checksum** (`UriComponent.dfy`, `Decimal.dfy`, `Alpn.dfy`, `Base64.dfy`, `Base64Alphabet.dfy`, `PostBody.dfy`,
`Checksum.dfy`), each against an independent definition of what it should compute.

## Where the code does not do what one would expect

These are theorems about the code as it stands.

- `decode` leaves a zero octet too many when the encoded length is 2 modulo 3: only a final `==` shortens
  the result (`Base64.DecodeEncodeExactly`).
- The write completion handler ignores how many octets were written. Conservation holds exactly in runs
  without short writes (`Pump.StreamConserved`), and a run with one is given (`Pump.ShortWriteLoses`).
- Offsets and lengths in the parser wrap at 65536 and the host run is re-read through the wrapped values. A
  URL is reported correctly exactly when all of them fit, the whole host run included
  (`UrlTheorems.ReportedIffFits`); a path of 70000 octets does not (`UrlRebuild.LongPath`). Accepted fields stay inside the buffer in any case
  (`UrlLayout.FieldsInside`).
- CONNECT mode is documented to take "hostname:port" and nothing else; a bare `@` before it, and a bare `?`
  with any number of `#` behind it, pass (`UrlTheorems.ConnectText`), for instance `@a:1`
  (`UrlRebuild.AtBeforeTarget`).
- A URL printed again from its fields loses empty or repeated delimiters (`UrlRebuild.ParsePrint`). The result
  parses to the same components (`UrlRebuild.NormalParses`) unless only a dropped `?` separated the host from
  a fragment; then it is rejected (`UrlRebuild.NormalRejected`), as `http://a#x`, printed from `http://a?#x`, is
  (`UrlRebuild.LosesItsQuery`).
- The checksum's 32-bit sum drops carries on long bodies. The packet verifies exactly when their number is a
  multiple of 65535 (`Checksum.ComputeChecksum`); 131068 octets of body are
  always safe and 131069 are not (`Checksum.BoundIsTight`).
- A stream can go back: when it receives a promise after its end, as in the run of `Streams.GoesBack`. On
  streams other than 0, with GOAWAY on stream 0 only, that is the only way, and the exact condition on the
  frames received is `Streams.GoesBackOnPromise`. Where GOAWAY names the stream, a promise or an end after it
  take the stream back as well (`Streams.GoesBackFromClosed`); the exact condition over all runs, whatever
  their frames, is `Streams.GoesBackExactly`.
- A header block of category NGHTTP2_HCAT_HEADERS is ignored, since no stream is ever told of a status: its
  fields, and its end of stream, change nothing but an idle state (`Streams.FurtherBlocks`). Trailers are of
  that category, and so is the response that follows an interim one: its status is lost, and the interim one
  is handed out (`Streams.InterimStatusStays`).
- `submit` computes `percent_decode` of the path and does not use it.
- The POST body callback also flags the end when it is offered no room (`PostBody.EofExactly`).

## Conventions

- Octets are integers below 256, strings are sequences of octets; a `char *` that `strtoul` reads is the
  rest of the buffer, taken to end in a NUL.
- `field_set` is a set of fields and `field_data` a record with one entry a field. Shifts and masks are
  divisions and remainders, and an "or" of disjoint bits is a sum.
- 16-bit, 32-bit and 64-bit arithmetic is written out where it can wrap or overflow; elsewhere integers are
  unbounded.
- `HTTP_PARSER_STRICT` is taken to be undefined, as in the repository's build.
- The status of a response is the 64-bit result of `parse_uint`, narrowed to an `int`.
- The protocol engine is a queue of answers in `Pump` (frames of 1 to 65536 octets, or out of memory) and a
  sequence of events in `Streams`. The member `wblen_` is taken to start at 0.
- The iconv table in `decode` is modelled by its effect: a symbol's index, and 0 for everything else.
- The regular expressions of `proccessUri` are greedy scans, on URIs without line breaks.
- A method that the source writes with loops or updates in place is a Dafny method proved against a function;
  what is then proved is proved about that function.

Characters and literals are pinned to their text or their octets (`Bytes.Codes`), so that no theorem rests on
a character class named only by itself.

## Model

| member | source | states |
|---|---|---|
| `UrlChars.UrlCharClass` | third-party/url-parser/url_parser.cpp:65-106 | the bitmap of URL characters is printable ASCII without `#` and `?`, plus tab, form feed and everything from 128 up |
| `UrlChars.AlphaClass` | third-party/url-parser/url_parser.cpp:39-40 | the bit-masking letter test admits the ASCII letters and nothing else |
| `UrlChars.HostCharClass` | third-party/url-parser/url_parser.cpp:107-108 | a host octet is a letter, a digit, a hyphen, a dot or an underscore |
| `UrlChars.UserinfoCharClass` | third-party/url-parser/url_parser.cpp:44-49 | the userinfo octets, written out |
| `UrlChars.V6CharClass` | third-party/url-parser/url_parser.cpp:407-421 | the octets of a bracketed address, written out |
| `UrlChars.ZoneCharClass` | third-party/url-parser/url_parser.cpp:423-435 | the octets of a zone, written out |
| `UrlScan.EdgesOfTheMachine` | third-party/url-parser/url_parser.cpp:221-367 | the live transitions of the outer machine, listed by target state, are exactly those of the transition function |
| `UrlScan.StepKeeps` | third-party/url-parser/url_parser.cpp:221-367 | one live step keeps the outline well formed, tracks the state and consumes one octet |
| `UrlScan.ScanSound` | third-party/url-parser/url_parser.cpp:546-602 | a run of the outer machine that stays alive has read a well-formed outline whose text is the input |
| `UrlScan.ScanComplete` | third-party/url-parser/url_parser.cpp:546-602 | the outer machine reads every well-formed outline back from its text, so runs and outlines are in bijection |
| `HostScan.EdgesOfTheHostMachine` | third-party/url-parser/url_parser.cpp:369-449 | the same for the live transitions of the host machine |
| `HostScan.ScanHostSound` | third-party/url-parser/url_parser.cpp:463-527 | a live run of the host machine has read a well-formed host outline of its input |
| `HostScan.ScanHostComplete` | third-party/url-parser/url_parser.cpp:463-527 | the host machine reads every well-formed host outline back from its text |
| `UrlParser.AdvanceHost` | third-party/url-parser/url_parser.cpp:470-510 | one transition extends the one field of its target state, starts it where it begins, and leaves the other fields and the port alone |
| `UrlParser.HttpParseHost` | third-party/url-parser/url_parser.cpp:451-530 | fails exactly when the host machine rejects the run; otherwise HOST, USERINFO and PORT are the pieces of its outline, in 16-bit members, and the other fields are kept |
| `UrlParser.HttpParserParseUrl` | third-party/url-parser/url_parser.cpp:533-635 | on every buffer, in both modes and whatever the struct held before: the return value, the fields set, their offsets and lengths and the port are those of `Parsed`, 16-bit wrap-around included |
| `UrlTheorems.AfterTheRun` | third-party/url-parser/url_parser.cpp:221-367 | after the host run comes the end, a slash or a question mark |
| `UrlTheorems.StrtoulAtPort` | third-party/url-parser/url_parser.cpp:622-632 | `strtoul`, started at the port of a derivation, reads exactly the port |
| `UrlTheorems.StrtoulReads` | third-party/url-parser/url_parser.cpp:622-624 | `strtoul` after spaces and a sign, saturating and negating in 64 bits |
| `UrlTheorems.DerivationParsed` | third-party/url-parser/url_parser.cpp:533-635 | every derivation whose host run is within 16 bits is accepted with its components as fields and its port number |
| `UrlTheorems.AcceptedIsDerived` | third-party/url-parser/url_parser.cpp:533-635 | every accepted buffer of at most 65535 octets has a derivation |
| `UrlTheorems.AcceptsTheGrammar` | third-party/url-parser/url_parser.cpp:533-635 | on buffers of at most 65535 octets, in both modes, the parser accepts exactly the grammar |
| `UrlTheorems.DerivationUnique` | third-party/url-parser/url_parser.cpp:533-635 | the grammar is unambiguous: no text has two derivations |
| `UrlPrint.PrintParseUrl` | third-party/url-parser/url_parser.cpp:533-635 | print, then parse: a URL of ordinary schema, userinfo, host or bracketed address with zone, port, path, query and fragment, its characters written out in octets, gives back every part verbatim and the number of the port |
| `UrlPrint.PrintParsePath` | third-party/url-parser/url_parser.cpp:533-635 | the same for a path in origin or asterisk form |
| `UrlTheorems.ReportedIffFits` | third-party/url-parser/url_parser.h:52-60 | at any length: the true fields and port are reported exactly when every offset and length, and the length of the host run, fits in 16 bits |
| `UrlTheorems.ConnectText` | third-party/url-parser/url_parser.cpp:617-620 | an accepted CONNECT target is "host:port" and nothing else exactly when it has no `@` and no `?` |
| `UrlGrammar.ComponentInText` | third-party/url-parser/url_parser.cpp:591-601 | each component stands in the derived text at the offset claimed for it |
| `UrlLayout.InOrder` | third-party/url-parser/url_parser.cpp:549-601 | components come in the order SCHEMA, USERINFO, HOST, PORT, PATH, QUERY, FRAGMENT and do not overlap |
| `UrlLayout.FieldLayout` | third-party/url-parser/url_parser.cpp:542-632 | on accepted buffers of at most 65535 octets the fields are not empty, lie inside the buffer, and are disjoint and in order |
| `UrlLayout.PortField` | third-party/url-parser/url_parser.cpp:622-632 | the port number is the value of exactly the PORT text, which a slash, a question mark or the end follows; without PORT it is 0 |
| `UrlLayout.FieldsInside` | third-party/url-parser/url_parser.cpp:591-601 | on accepted buffers of any length every field lies inside the buffer |
| `UrlRebuild.ParsePrint` | third-party/url-parser/url_parser.cpp:546-602 | the fields print to the URL without its silent delimiters, and to the URL itself exactly when it has none |
| `UrlRebuild.NormalDerivable` | third-party/url-parser/url_parser.cpp:546-602 | that text is in the grammar exactly unless only a dropped `?` separated the authority from a fragment |
| `UrlRebuild.NormalParses` | third-party/url-parser/url_parser.cpp:533-635 | in the grammar, that text is accepted, with the components and the port of the original, and prints to itself |
| `UrlRebuild.NormalRejected` | third-party/url-parser/url_parser.cpp:533-635 | out of it, that text is rejected |
| `UrlRebuild.LosesItsQuery` | third-party/url-parser/url_parser.cpp:554-560 | `http://a?#x` is accepted and `http://a#x`, printed from its fields, is not |
| `UrlRebuild.LongPath` | third-party/url-parser/url_parser.h:52-60 | a path of 70000 octets is accepted and reported as one of 4464 |
| `UrlRebuild.AtBeforeTarget` | third-party/url-parser/url_parser.cpp:617-620 | `@a:1` is accepted in CONNECT mode |
| `UrlRebuild.NormalLength` | third-party/url-parser/url_parser.cpp:554-560 | dropping the silent delimiters shortens the text exactly when there are any |
| `UriComponent.HexToChar` | include/jsfunctions.h:95-101 | writes the two lower-case hexadecimal digits of an octet |
| `UriComponent.EncodeURIComponent` | include/jsfunctions.h:119-140 | computes the encoding, octet by octet |
| `UriComponent.EncodedOctet` | include/jsfunctions.h:119-140 | which octets stand for themselves, that a space becomes `+`, and that all others become `%` and two digits of "0123456789abcdef" |
| `UriComponent.DecodeURIComponent` | include/jsfunctions.h:146-160 | computes the decoding, with the exception of `std::stoi` and reads past the terminating NUL as outcomes |
| `UriComponent.HexDigits` | include/sessionutil.h:75-90 | a hexadecimal digit is worth its position in "0123456789abcdef" or "0123456789ABCDEF" |
| `UriComponent.StringToHexIsStoi` | include/jsfunctions.h:107-109 | an escape is worth what `std::stoi` in base 16 makes of its two characters, with spaces and signs, in eight bits |
| `UriComponent.DecodePieces` | include/jsfunctions.h:146-160 | on every text whose `%` all start escapes, in upper or lower case: the octets it stands for, with `+` for a space, whatever follows |
| `UriComponent.BrokenEscapeRead` | include/jsfunctions.h:146-160 | a `%` followed by any two characters gives what `std::stoi` makes of them, or its exception |
| `UriComponent.CutEscapeRead` | include/jsfunctions.h:146-160 | a `%` at the end, or one character before it, reads past the end or throws |
| `UriComponent.DecodeEncode` | include/jsfunctions.h:119-160 | decoding undoes encoding for every octet string |
| `UriComponent.EncodedIsUrl` | include/jsfunctions.h:119-140 | the encoder writes URL characters only |
| `UriComponent.PercentDecode` | include/sessionutil.h:92-114 | the in-place cursors compute the recursive definition; the write cursor never passes the read cursor |
| `UriComponent.PercentPieces` | include/sessionutil.h:92-114 | on every text: escapes in upper or lower case are replaced by the octets they stand for, all else stands |
| `UriComponent.ReadsAsPieces` | include/sessionutil.h:103-107 | every text can be read that way |
| `UriComponent.PercentDecodeEncode` | include/sessionutil.h:92-114 | `percent_decode` undoes the encoder up to spaces, which become `+` |
| `UriComponent.PercentDecodedLength` | include/sessionutil.h:92-114 | the length shrinks by two for each escape replaced |
| `UriComponent.PercentDecodeChanges` | include/sessionutil.h:92-114 | a string is left as it is exactly when no valid escape stands anywhere in it |
| `Decimal.Utos` | include/sessionutil.h:35-49 | prints the decimal digits; the backward fill writes every cell of the buffer that the first loop sized |
| `Decimal.ParseUintDigits` | include/sessionutil.h:144-171 | value and length of the longest digit prefix if there is one and it is worth at most 9223372036854775807, else (-1, 0); no intermediate overflow |
| `Decimal.ParseUint` | include/sessionutil.h:173-181 | the value of a whole string of digits worth at most 2^63-1, else -1 |
| `Decimal.PrintedIsParsed` | include/sessionutil.h:35-49 | the printed digits of every number are digits and worth that number |
| `Decimal.ParsedIsPrinted` | include/sessionutil.h:144-181 | printing the value of a digit string gives it back exactly when it has no leading zero |
| `Alpn.SelectProto` | include/utilities.h:127-138 | terminates inside the list on every octet string and points behind the first match of its steps |
| `Alpn.Names` | include/utilities.h:99-109 | the three names |
| `Alpn.SelectH2` | include/utilities.h:155-160 | points at the chosen name in the list, with its length |
| `Alpn.GetDefaultAlpn` | include/utilities.h:114-125 | the filled vector is the wire form of h2, h2-16, h2-14, octet by octet |
| `Alpn.FoundInWire` | include/utilities.h:130-136 | on a well-formed list the scan stops at the first whole entry that equals the key, and nowhere else |
| `Alpn.SelectsPreferred` | include/utilities.h:155-160 | on a well-formed list `selectH2` succeeds exactly when one of the three is an entry, and chooses the first occurrence of the most preferred one |
| `Alpn.DefaultSelectsH2` | include/utilities.h:114-160 | the client's own list selects h2 |
| `Base64.EncodeFromArray` | include/jsfunctions.h:166-190 | the loop with its patched padding computes the encoding of section 4 of RFC 4648 |
| `Base64.BuildTable` | include/jsfunctions.h:235-239 | the table holds the index of every symbol and 0 elsewhere |
| `Base64Alphabet.AlphabetSymbols` | include/jsfunctions.h:14-15 | the symbols are the alphabet, in its order |
| `Base64Alphabet.AlphabetIndex` | include/jsfunctions.h:235-239 | a character's index is its place in the alphabet, or 0 if it has none |
| `Base64.Decode` | include/jsfunctions.h:241-263 | computes the decoding; lengths that are no multiple of 4 and octets from 128 up make `at` throw |
| `Base64.TripleIsWord` | include/jsfunctions.h:254-256 | four indices make the 24-bit group of three octets |
| `Base64.ThrowsExactly` | include/jsfunctions.h:249-253 | `at` throws exactly on lengths that are no multiple of 4 and on octets from 128 up |
| `Base64.DecodeEncode` | include/jsfunctions.h:166-264 | decode after encode gives the input, with one zero octet more when its length is 2 modulo 3 |
| `Base64.DecodeEncodeExactly` | include/jsfunctions.h:166-264 | decode undoes encode exactly on lengths that are not 2 modulo 3 |
| `Base64.Injective` | include/jsfunctions.h:166-190 | no two octet strings have the same text |
| `Base64.TextShape` | include/jsfunctions.h:183-188 | the text is ASCII, a multiple of 4 long, and its last two characters tell the input length modulo 3 |
| `Base64.BasicCredential` | source/xmlhttprequest.cpp:145-169 | the buffer filled by an advancing iterator encodes user, colon, password |
| `Base64.CredentialDetermines` | source/xmlhttprequest.cpp:152-167 | a credential determines user and password among all users without a colon |
| `Base64.Encode` | include/jsfunctions.h:195-206 | writes the six octets of a hash below 2^48, most significant first, and encodes them |
| `Base64.HashRoundTrip` | include/jsfunctions.h:195-264 | eight characters without padding that decode to six octets whose big-endian value is the hash |
| `Checksum.IcmpHeader.Put` | tests/requests/include/icmp_header.h:65-69 | stores a 16-bit value big-endian in two octets and changes no other |
| `Checksum.ComputeChecksum` | tests/requests/include/icmp_header.h:74-92 | changes the checksum field alone; the packet then verifies exactly when the carries lost from the 32-bit sum are a multiple of 65535, and always on bodies of at most 131068 octets |
| `Checksum.FoldKeepsResidue` | tests/requests/include/icmp_header.h:89-90 | two folds of any 32-bit sum keep its residue modulo 65535, and only 0 folds to 0 |
| `Checksum.OnesSumResidue` | tests/requests/include/icmp_header.h:78-87 | the one's complement sum of RFC 1071 is the plain sum modulo 65535 |
| `Checksum.ComplementVerifies` | tests/requests/include/icmp_header.h:89-91 | a sum and its complemented fold make all ones exactly when the lost carries are a multiple of 65535 |
| `Checksum.BoundIsTight` | tests/requests/include/icmp_header.h:78-87 | one octet of body more than 131068 can overflow the sum, and the packet then does not verify |
| `PostBody.Source.Read` | source/httptlssession.cpp:74-102 | copies the next chunk, removes it from the body, touches no other cell of the buffer, and flags the end when it copied nothing |
| `PostBody.ChunkIsFull` | source/httptlssession.cpp:88-95 | a call delivers all the room it is offered, or all the body there is |
| `PostBody.Conservation` | source/httptlssession.cpp:88-95 | whatever the lengths, the chunks delivered followed by the rest are the body |
| `PostBody.EofExactly` | source/httptlssession.cpp:92-99 | a call flags the end exactly when it finds the body empty or is offered no room |
| `PostBody.Progress` | source/httptlssession.cpp:88-95 | calls that offer room shorten the body until it is empty |
| `PostBody.EofReached` | source/httptlssession.cpp:74-102 | the end is flagged within one call more than the body has octets, first by the call that finds all of it delivered |
| `Pump.Session.Append` | source/abstractsession.cpp:291-293 | appends a frame to the filled part of the buffer |
| `Pump.Session.Drain` | source/abstractsession.cpp:264-295 | the loop takes frames while they fit and spills the first that does not |
| `Pump.Session.Write` | source/abstractsession.cpp:238-307 | is the step `Written`; the buffer is not touched while a write is in flight |
| `Pump.Session.Complete` | source/abstractsession.cpp:309-337 | is the step `Completed`, for every reported octet count, error and stream 0 state |
| `Pump.FillIsSafe` | source/abstractsession.cpp:264-295 | the loop stays inside the buffer, spills a frame only behind other octets, and only one that does not fit |
| `Pump.WrittenIsSafe` | source/abstractsession.cpp:246-302 | a pending frame finds room when its turn comes, and afterwards implies a write in flight |
| `Pump.CompletedIsSafe` | source/abstractsession.cpp:309-337 | every completion keeps the buffer safe |
| `Pump.RunKeeps` | source/abstractsession.cpp:238-338 | safety and conservation hold along every run |
| `Pump.StreamConserved` | source/abstractsession.cpp:238-338 | in every run that no event stops, octets taken are octets sent, buffered and pending, in order, exactly when no completion in the run reported a short write |
| `Pump.LostByShortWrites` | source/abstractsession.cpp:309-334 | a step loses the octets that a successful completion left unwritten, and no others |
| `Pump.WholeLosesNothing` | source/abstractsession.cpp:309-334 | over any run, nothing is lost exactly when it has no short write |
| `Pump.ShortWriteLoses` | source/abstractsession.cpp:309-334 | a run from the initial state, with one short write, whose octets are not those taken |
| `Pump.IdleMeansSent` | source/abstractsession.cpp:278-300 | a pump that goes idle has sent all it took and left nothing queued |
| `Pump.WritesExactly` | source/abstractsession.cpp:251-307 | a call of `write` that finds nothing in flight starts a write exactly when there is anything to send |
| `Pump.FillStops` | source/abstractsession.cpp:264-276 | the loop stops the session exactly when the engine runs out of memory behind frames that together fit |
| `Pump.StopsExactly` | source/abstractsession.cpp:238-330 | a step stops a session exactly when it is told to, when a write fails or completes with stream 0 closed, or when `write` finds the engine out of memory; and a stopped session stays stopped |
| `Pump.RunStopsExactly` | source/abstractsession.cpp:238-330 | so does a run, exactly when one of its events does |
| `Pump.StoppingFreezes` | source/abstractsession.cpp:313-330 | a completion that stops the session leaves buffer, pending frame, queue and everything taken alone |
| `Pump.StoppedIsQuiet` | source/abstractsession.cpp:241-244 | a stopped session takes nothing more and starts no write |
| `Pump.InFlightUntouched` | source/abstractsession.cpp:246-249 | no step but the completion touches the octets in flight |
| `Pump.DeliveredProgress` | source/abstractsession.cpp:332-336 | a whole-buffer completion makes progress and keeps the pump healthy |
| `Pump.DrainsEverything` | source/abstractsession.cpp:238-338 | with whole-buffer completions everything queued is sent, in order, and the pump goes idle |
| `Streams.NoInterference` | source/sessioncallbacks.cpp:18-489 | in every interleaving a stream ends as its own events alone would leave it |
| `Streams.RegisteredExactly` | source/abstractsession.cpp:605-633 | in every run a stream is registered exactly when submit, a header block or an outgoing frame has asked for it since it last closed |
| `Streams.BodyIsDelivered` | source/sessioncallbacks.cpp:306-332 | a response holds exactly the data delivered for its stream since the stream was registered, in order |
| `Streams.HeadersAreLast` | source/sessioncallbacks.cpp:71-90 | a response's status, narrowed to an `int`, and its content length are the last ones received since the registration outside further header blocks |
| `Streams.ToIntIs` | source/sessioncallbacks.cpp:87-88 | the narrowed status is the 32-bit integer equal to it modulo 2^32 |
| `Streams.FurtherBlocks` | source/sessioncallbacks.cpp:71-76 | in every state the fields of a further header block change nothing, and its frame, ended or not, at most opens an idle stream |
| `Streams.InterimStatusStays` | source/sessioncallbacks.cpp:71-88 | when every header block after some status is a further one, the ready callback hands out that status |
| `Streams.ReadyIsDelivered` | source/sessioncallbacks.cpp:344-353 | every ready callback hands out the data, the status and the content length received for its stream since the registration |
| `Streams.RegisteredBetween` | source/abstractsession.cpp:605-609 | a stream that appears between two points of a run is registered between them |
| `Streams.ReadySeparated` | source/sessioncallbacks.cpp:334-359 | two ready callbacks for one id are separated by a fresh registration |
| `Streams.ClimbsExactly` | source/sessioncallbacks.cpp:199-297 | one step lowers a stream's state exactly for a promise on a half-closed or closed stream, or an effective end on a closed one |
| `Streams.TurnsExactly` | source/sessioncallbacks.cpp:199-297 | in every run, whatever its frames: a stream is half closed exactly when its end has been received since its registration and no promise or GOAWAY after it, closed exactly when a GOAWAY has named it and no promise or end came after, and reserved exactly when it has been promised and no end or GOAWAY came after |
| `Streams.StateExactly` | source/sessioncallbacks.cpp:137-297 | in every run a stream's state, as a case distinction on the events since its registration |
| `Streams.GoesBackExactly` | source/sessioncallbacks.cpp:199-297 | in every run, whatever its frames: event k lowers a stream's state exactly when it is a promise and the stream has ended or gone away, or an end and the stream has gone away |
| `Streams.GoesBackOnPromise` | source/sessioncallbacks.cpp:278-296 | with GOAWAY on stream 0 only, exactly when it is a promise on a stream that has received its end and no promise since |
| `Streams.GoesBack` | source/sessioncallbacks.cpp:278-291 | a run of three frames that takes a stream from half closed to reserved |
| `Streams.GoesBackFromClosed` | source/sessioncallbacks.cpp:226-296 | a run of three frames that takes a stream from closed to half closed |
| `Streams.RunSound` | source/sessionstream.cpp:50-54 | in every run no stream is locally reserved or half closed, and none expects an interim response |
| `Streams.IdleExactly` | source/sessioncallbacks.cpp:137-140 | in every run a stream is idle exactly when it was not registered by sending and no header block, promise or GOAWAY has woken it |
| `Streams.EndedExactly` | source/sessioncallbacks.cpp:220-255 | under the protocol of RFC 7540 a stream is half closed exactly when its end has been received since its registration, other than on a further header block or on data for an idle stream |
| `Streams.ClosedOrEnded` | source/abstractsession.cpp:619-629 | under the protocol of RFC 7540 only stream 0 can be found closed between callbacks, and a half-closed stream has received its end |
| `Streams.StatesClimb` | source/sessioncallbacks.cpp:199-297 | under that protocol every step of every run raises or keeps a stream's state |
| `SessionCallbacks.Session.AddStream` | source/abstractsession.cpp:605-609 | registers a stream under its id unless the id is taken; a registered object is not replaced |
| `SessionCallbacks.Session.RemoveStream` | source/abstractsession.cpp:631-633 | removes that id and no other |
| `SessionCallbacks.Session.FindClosedStreams` | source/abstractsession.cpp:619-629 | every closed stream, once, and no other |
| `SessionCallbacks.Session.CreateAndAdd` | source/sessioncallbacks.cpp:18-28 | one registration step; objects already registered stay |
| `SessionCallbacks.Session.Submit` | source/abstractsession.cpp:496-500 | one registration step |
| `SessionCallbacks.Session.OnBeginHeaders` | source/sessioncallbacks.cpp:30-46 | one step: registers the stream, or the promised stream of a push |
| `SessionCallbacks.Session.OnHeader` | source/sessioncallbacks.cpp:48-188 | one step: status and content length of the response, or the reserved state of a promised stream |
| `SessionCallbacks.Session.OnFrameRecv` | source/sessioncallbacks.cpp:190-304 | one step on the state of the frame's stream |
| `SessionCallbacks.Session.OnDataChunk` | source/sessioncallbacks.cpp:306-332 | one step: the chunk goes to its stream's response and to no other |
| `SessionCallbacks.Session.OnStreamClose` | source/sessioncallbacks.cpp:334-359 | one step: the ready callback with the response as it is, then removal |
| `SessionCallbacks.Session.BeforeFrameSend` | source/sessioncallbacks.cpp:374-489 | one step: an unknown stream is registered open; GOAWAY closes |
| `SessionCallbacks.PerformAll` | source/sessioncallbacks.cpp:18-489 | after any sequence of events a new session holds exactly the streams where the run of those events leads, and has made exactly its ready callbacks |
| `SessionCallbacks.ResponseIsDelivered` | source/sessioncallbacks.cpp:306-332 | each response object of such a session holds exactly the data, the status and the content length received for its stream since the registration |
| `SessionCallbacks.Stream.ReceiveFrame` | source/sessioncallbacks.cpp:203-297 | the state changes of each frame type |
| `SessionCallbacks.Stream.ReceiveField` | source/sessioncallbacks.cpp:71-124 | status and content length of the response change, but not by a further header block (NGHTTP2_HCAT_HEADERS) |
| `SessionCallbacks.Stream.ReceivePromise` | source/sessioncallbacks.cpp:131-140 | an idle promised stream becomes reserved |
| `SessionCallbacks.Response.Append` | source/httpresponse.cpp:47-53 | appends one chunk |
| `SessionCallbacks.Response.ContentLength` | source/httpresponse.cpp:28-33 | the announced length, or the sum of the chunk sizes, which is then remembered |
| `Request.ProccessUri` | source/xmlhttprequest_impl.cpp:162-204 | computes `Processed` on every URI without line breaks |
| `Request.FindLastColon` | source/xmlhttprequest_impl.cpp:186 | the last colon of a string |
| `Request.CopyUrlComponent` | include/sessionutil.h:23-28 | the text of a field that is set, and the old value otherwise |
| `Request.Submit` | source/abstractsession.cpp:403-459 | succeeds exactly on absolute URLs, with their scheme and with path and query as section 8.1.2.3 of RFC 7540 asks |
| `Request.ReadsDerivation` | source/abstractsession.cpp:419-453 | the fields of an accepted URL lead to the pseudo-header fields of its derivation |
| `Request.ProcessedParts` | source/xmlhttprequest_impl.cpp:168-203 | the scans cut a URI where protocol, authority and tail meet |
| `UriPatterns.ProcessedExactly` | source/xmlhttprequest_impl.cpp:168-169 | a URI is taken apart exactly when four or five of the letters h, t, p, s, then "://", then three or more address characters, then anything, match it |
| `UriPatterns.LabelsExactly` | source/xmlhttprequest_impl.cpp:32-33 | the host pattern matches exactly labels of letters, digits and inner hyphens joined by dots |
| `UriPatterns.AddressCharClass` | source/xmlhttprequest_impl.cpp:24-25 | the address characters, written out |
| `UriPatterns.ProtocolCharClass` | source/xmlhttprequest_impl.cpp:20-21 | the protocol characters, written out |
| `Request.ProcessedConserves` | source/xmlhttprequest_impl.cpp:168-203 | of every URI taken apart nothing is lost: a host and port give the URI back when assembled, any other address has "443" put behind it for https and "80" otherwise |
| `Request.ProcessedPlain` | source/xmlhttprequest_impl.cpp:162-204 | `proccessUri` finds host, port ("443" for https or "80" when missing), protocol and tail of every plain URL whose authority has three characters, and rejects shorter ones |
| `Request.AssembledPlain` | source/xmlhttprequest.cpp:455-456 | what `fetch` assembles is that URL with its port spelled out |
| `Request.RequestAgrees` | source/abstractsession.cpp:419-453 | the parser in `submit` finds in the assembled URI the host, port and protocol that `proccessUri` found, the number of the port (443 for https or 80 when missing), and the path and query of the original URL |
| `UriPatterns.OrdinaryUrl` | third-party/url-parser/url_parser.cpp:533-635 | an http or https URL of dotted labels, hyphens and all, and a path is accepted, and its HOST and PATH are those |
| `UriPatterns.LabelsAreHosts` | third-party/url-parser/url_parser.cpp:107-108 | dotted labels are a host for the parser |
| `UriPatterns.PathInTail` | source/abstractsession.cpp:443-453 | the path sent is what stands behind the authority, with a "/" for a missing path, without a bare "?" and without the fragment |
| `Request.EncodedQueryDerivable` | include/jsfunctions.h:119-140 | an encoded component can take the place of any query |
| `Request.QueryRoundTrip` | include/jsfunctions.h:119-160 | encode a component into the query of any URL, parse it, copy the query out, decode it: the component comes back |

## Left out

- Sockets, TLS, the resolver, timers, ping scheduling, threads and locks: completions and callbacks are atomic steps.
- nghttp2 itself: HPACK, framing and flow control. Of the negative results of `nghttp2_session_mem_send` only the one for lack of memory is modelled; the source does not check for others.
- Pump.Session: the pointer to pending data is a flag, and the data is the engine's memory, which the engine does not touch before its next `mem_send`.
- Reconnection after a session has stopped; runs go on after stop but nothing is claimed about conservation there.
- The whole of `Response::text`, `Response::type`, MIME overriding, the stored header lists, `Request`'s lazy getters and the ready-state callbacks: thin wrappers.
- The `host` string with brackets and port that `submit` builds and does not use, the header list and the priority it passes on, and what the engine does with them.
- Base64.Decode: not stated for the empty text, on which the source indexes before the start of a string.
- Base64.Encode: not stated for hashes that are negative, fractional or not below 2^48, where floating-point division would matter.
- UriComponent.HexToUint: stated on hexadecimal digits only, which its callers have checked.
- UriComponent.DecodeURIComponent: what a read past the terminating NUL yields is not modelled, only that it happens.
- Alpn.SelectProto: not stated for an empty key, which no caller passes.
- Request.ProccessUri: on a URI with line breaks the anchor of the pattern also matches behind one; the scans start at the beginning of the URI only.
- Boost.Regex and iconv as libraries.
- The tables of `source/http2.cpp`, cipher lists, certificates, logging, and the rest of the ping test.
