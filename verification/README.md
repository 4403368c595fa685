# kcat: a verified model

kcat controls a Kachina 505 radio. This project models its three pieces of real logic and
proves what they promise:

* the XML-RPC stack (`src/xmlrpcpp`): the printer and parser of tagged values, the tag
  scanners and entity coding, the HTTP header scan, the two non-blocking connection state
  machines, the server's calls and multicalls, and the client's `execute`;
* the calendar class (`src/support/date.cxx`);
* the radio side: `sendCmd` and the threads that share the serial line, the telemetry
  stack and its display, the synthesizer's tuning word, the table of antenna ranges, the
  expansion of keyer messages, and the two sliding windows of the meters.

Loops and objects of the C++ code are methods and classes with the same fields and
branches. Each method is proved equal to a function of its inputs or of the old state, and
the laws are lemmas about these functions. System calls are scripts that a method is
given: what each `read`, `write`, `connect`, `select` or serial access returns is
arbitrary, and every theorem holds for all scripts unless it says otherwise.

The main results, in the order of the stack:

* `XmlRpcCodec.RoundTrip`: `fromXml` reads back what `toXml` printed, at any place of any
  text, if and only if the value has no unset part, no NUL in a string and no entity
  character in a member name.
* `Spellings.Reads`: `fromXml` reads every way to write a value as what it means, under any
  tag, empty tags and white space included, with the exact condition on the text.
* `MessageSpellings.ReadsRequest`, `MessageSpellings.ReadsResponse`: the same for whole
  requests and responses.
* `HttpHeader.LookAtFragment`, `ServerSession.KeepAliveRun`, `ClientMachine.WorkSafe`:
  however bytes are cut, buffers hold exactly what has arrived, nothing is lost or
  repeated, and the two ends read the same message.
* `ServerHub.HubRun`, `Calls.CallAndReply`, `Calls.CallsAndReplies`: for every method table
  and every run of a server with any number of connections, whatever bytes other clients
  send on theirs, each `execute` leads to at most one execution of its call on each
  connection it uses, and it uses two at most; if
  it ends with a response complete by its length, out of bytes the server wrote, it
  delivers the result or fault of the execution on its last connection. So the call was
  executed exactly once if the client did not have to connect anew, and
  `Calls.ExecutedTwice` shows that otherwise it can be executed twice.
* `ConnectionField.KeptByText`, `ConnectionUse.ExecuteUses`: from the text of a request
  alone, whether the server keeps its connection; and that the client goes on with a
  connection exactly if its last call was completed on it.
* `ClientProgress.ExecuteCompletes`, `ClientProgress.NotKeptNeverReturns`: `execute` returns
  as soon as its sockets have delivered, if it keeps its connection, and never returns
  true if it does not.
* `Calendar.DaysBeforeClosed`, `Calendar.StepExactly`, `Calendar.AdvanceExactly`,
  `Calendar.StepsRecover`: stepping is that of the calendar in all years, the mixed-radix
  day of the epoch agrees with it but for exactly known dates before year 1, and stepping
  leads back into the calendar from exactly the dates that are not past their month.
* `RadioThreads.PairingExactly` and `SerialLink.SendExactly`: a command gets the verdict on
  itself, under any interleaving, exactly if the radio answers within the 50 reads of a
  try, and else can get that of another one; and what `sendCmd` makes of any line.
* `Macros.Simultaneous`, `Macros.ApartEnds`, `AntennaTable.Table.Add`, `TuningWord.IncreasingExactly`,
  `TuningWord.TopBytesError`, `Meters.SigBar.Peak`.

Where a promised property is false of the code, the lemma states for which inputs it holds
and for which it does not: a NUL in text, or far enough behind `<string>`, an entity character in a member name, a method
name that holds its own end tag, an empty `<base64/>` or client identification, where the
behaviour is undefined, a body of 2 GiB or more, "HTTP/1.0" in a body, a connection lost
between request and response, a response that the socket does not take at once on a
connection that is not kept, a radio that answers too late, a full antenna table, which the program writes behind, a
move of a date by a month into a leap year, steps at the ends of years up to 0, additions
of opposite sign, and message texts whose replacement never ends.

XML-RPC has no numbered sections; the framing follows sections 3.3.2 and 3.3.3 of RFC 7230,
interim responses section 6.2.1 of RFC 7231, entities section 4.6 of XML 1.0.

`dafny verify dfyconfig.toml` checks the project.

## Model

| member | source | states |
|---|---|---|
| Text.ParseDecimal | src/xmlrpcpp/XmlRpcValue.cpp:397-418 | `strtol` on a number printed with `%d` yields the number and stops at the first character behind it, whatever follows, as long as that is no digit |
| Text.StrtolReads | src/xmlrpcpp/XmlRpcValue.cpp:397-408 | on white space, a sign or none, and digits, `strtol` yields their value, negated by a minus sign and saturated to 64 bits, and stops behind them; without digits it yields 0 and does not move |
| XmlRpcUtil.NextTagIs | src/xmlrpcpp/XmlRpcUtil.cpp:197-231 | the scan finds `<tag>` or `<tag/>` at the offset, white space aside, and leaves the offset alone when it does not |
| XmlRpcUtil.NextTagIsEnd | src/xmlrpcpp/XmlRpcUtil.cpp:237-258 | the scan finds `</tag>` behind text that has no tag, and leaves the offset alone when it does not |
| XmlRpcUtil.FindTag | src/xmlrpcpp/XmlRpcUtil.cpp:165-191 | the loop finds the first start tag and the end of its attributes, and whether it is empty |
| XmlRpcUtil.ParseTag | src/xmlrpcpp/XmlRpcUtil.cpp:117-160 | the loop yields the text between a start tag and the first end tag behind it; without one the offset stays, and the caller's string is emptied exactly if the start tag was there |
| XmlRpcUtil.FindStartTagIs | src/xmlrpcpp/XmlRpcUtil.cpp:165-191 | the first start tag is found with whatever stands in front of its closing bracket, and is empty exactly if that ends in a slash |
| XmlRpcUtil.FindElementIs | src/xmlrpcpp/XmlRpcUtil.cpp:117-160 | the element of such a tag is the text up to the first end tag, or empty |
| XmlRpcUtil.NextEndTagBehindNul | src/xmlrpcpp/XmlRpcUtil.cpp:237-258 | a NUL in the text hides the end tag behind it |
| XmlRpcUtil.XmlEncode | src/xmlrpcpp/XmlRpcUtil.cpp:307-334 | the loop over entity characters encodes every character of the text, once |
| XmlRpcUtil.XmlDecode | src/xmlrpcpp/XmlRpcUtil.cpp:270-304 | the loop over ampersands stops at the end of any text, with every entity replaced and every other character kept |
| XmlRpcUtil.Decode | src/xmlrpcpp/XmlRpcUtil.cpp:270-304 | decoding never lengthens a text |
| XmlRpcUtil.DecodeEncode | src/xmlrpcpp/XmlRpcUtil.cpp:270-334 | decoding undoes encoding, on every text |
| XmlRpcUtil.EncodedIsText | src/xmlrpcpp/XmlRpcUtil.cpp:307-334 | an encoded text holds no '<', and a NUL exactly if the text does |
| XmlRpcUtil.EncodeLength | src/xmlrpcpp/XmlRpcUtil.cpp:307-334 | encoding never shortens a text, and changes it exactly if it holds an entity character |
| XmlRpcUtil.FiveEntities | src/xmlrpcpp/XmlRpcUtil.cpp:261-265 | which text stands for which of the five characters |
| XmlRpcUtil.DecodeKeeps | src/xmlrpcpp/XmlRpcUtil.cpp:270-304 | a character that begins none of the five entities, a '&' included, is kept |
| ValueSyntax.ParseValue | src/xmlrpcpp/XmlRpcValue.cpp:230-348 | on any text the mutual recursion of value, array and struct ends, in a value, a failure or undefined behaviour; success strictly advances the offset and keeps it within the text |
| Definedness.DefinedExactly | src/xmlrpcpp/XmlRpcValue.cpp:313-348 | reading a value is defined at all offsets of a text if and only if no non-empty `<value>` tag in it is directly followed by an empty base64 tag |
| Definedness.MessagesDefined | src/xmlrpcpp/XmlRpcClient.cpp:514-560 | on such a text parsing a response is defined, and parsing a request if and only if it has no empty client identification |
| Definedness.EmptyBase64Undefined | src/xmlrpcpp/XmlRpcValue.cpp:313-322 | a `<value>` that holds an empty base64 tag is always read through the null offset, in undefined behaviour |
| Definedness.ShortestUndefined | src/xmlrpcpp/XmlRpcValue.cpp:313-322 | as in `<value><base64/></value>` |
| XmlRpcCodec.RoundTrip | src/xmlrpcpp/XmlRpcValue.cpp:230-366 | in every context a printed value is read back as itself, with the offset exactly behind it, if and only if it has no unset part, no NUL in a string and no entity character in a member name |
| XmlRpcCodec.ReadBack | src/xmlrpcpp/XmlRpcValue.cpp:230-625 | also with entity characters in names: they come back encoded; with a NUL in a string, at any depth, reading fails |
| XmlRpcCodec.RereadSame | src/xmlrpcpp/XmlRpcValue.cpp:576-625 | what comes back is the value that was printed exactly if no member name holds an entity character |
| XmlRpcCodec.ParsedIsSound | src/xmlrpcpp/XmlRpcValue.cpp:538-604 | whatever the text, a value that was read has no unset part and every struct in it lists its names once, in ascending order |
| Spellings.Reads | src/xmlrpcpp/XmlRpcValue.cpp:230-348 | every spelling of a value, by any tag, by an empty one or by none, nested to any depth, with white space and text where they may stand and any text where a number is expected, is read as what it means in every context, with the offset exactly behind it, if and only if it holds no NUL in untyped text, none behind a number or, from as many characters on as its decoded text has, in a `<string>`, a number where one is expected, no date the library refuses, and none of the empty tags that the reader has no value for; else reading fails |
| Spellings.NumberElement | src/xmlrpcpp/XmlRpcValue.cpp:276-284 | a number under `<i4>` or `<int>` is read back in every context |
| Spellings.FlagElement | src/xmlrpcpp/XmlRpcValue.cpp:370-381 | of the numbers under `<boolean>`, 1 is read as true and 0 as false, and every other one is refused |
| Spellings.DoubleElement | src/xmlrpcpp/XmlRpcValue.cpp:421-432 | text under `<double>` is read as far as the library's conversion goes, and refused if that does not move |
| Spellings.StringElement | src/xmlrpcpp/XmlRpcValue.cpp:294-302 | an encoded string under `<string>` is read back if and only if the encoded text has no NUL from as many characters on as the string has, so always if the string has none |
| ValueSyntax.MemberNamedExactly | src/xmlrpcpp/XmlRpcValue.cpp:222-225 | looking a name up finds a value exactly if the struct has the name with this value |
| ValueSyntax.InsertKeepsFirst | src/xmlrpcpp/XmlRpcValue.cpp:576-604 | a member whose name is there already changes nothing |
| XmlRpcValueObject.XmlRpcValue.FromXml | src/xmlrpcpp/XmlRpcValue.cpp:230-348 | the object takes the value at the offset, and offset and failure are those of the grammar; a failure restores the offset; undefined behaviour is told apart exactly, and nothing is promised of it |
| XmlRpcValueObject.XmlRpcValue.TypedFromXml | src/xmlrpcpp/XmlRpcValue.cpp:257-338 | the chain of type tags reads the type that is there as `Spellings.Reads` says, untyped text as a string; an empty base64 tag in its place, or further inside, is undefined |
| XmlRpcValueObject.XmlRpcValue.NestedFromXml | src/xmlrpcpp/XmlRpcValue.cpp:323-338 | its last links read arrays and structs |
| XmlRpcValueObject.XmlRpcValue.BoolFromXml | src/xmlrpcpp/XmlRpcValue.cpp:370-381 | only 0 and 1 are read, by `strtol`; the offset moves past the digits |
| XmlRpcValueObject.XmlRpcValue.IntFromXml | src/xmlrpcpp/XmlRpcValue.cpp:397-408 | a number is read by `strtol` and cut to 32 bits; no digits, no value |
| XmlRpcValueObject.XmlRpcValue.StringFromXml | src/xmlrpcpp/XmlRpcValue.cpp:447-457 | text up to the next '<' is decoded; the offset moves by the decoded length |
| XmlRpcValueObject.XmlRpcValue.LexemeFromXml | src/xmlrpcpp/XmlRpcValue.cpp:421-517 | the other scalar kinds move the offset as their readers do, the conversions themselves being those of the library |
| XmlRpcValueObject.XmlRpcValue.ArrayFromXml | src/xmlrpcpp/XmlRpcValue.cpp:538-558 | the loop reads the values that follow each other, all of them, in order |
| XmlRpcValueObject.XmlRpcValue.StructFromXml | src/xmlrpcpp/XmlRpcValue.cpp:576-604 | the loop reads the members, and keeps the first of several with one name |
| XmlRpcValueObject.XmlRpcValue.ToXml | src/xmlrpcpp/XmlRpcValue.cpp:351-366 | the text that `RoundTrip` is about |
| XmlRpcValueObject.XmlRpcValue.ArrayToXml | src/xmlrpcpp/XmlRpcValue.cpp:562-573 | the accumulated text of an array is the one the parser inverts |
| XmlRpcValueObject.XmlRpcValue.StructToXml | src/xmlrpcpp/XmlRpcValue.cpp:609-625 | the accumulated text of a struct is the one the parser inverts |
| ValueSyntax.UnsetPrintsNothing | src/xmlrpcpp/XmlRpcValue.cpp:351-366 | an unset value prints nothing and so is lost from an array |
| XmlRpcSource.NbRead | src/xmlrpcpp/XmlRpcSource.cpp:102-142 | the loop appends every byte read, in order, and tells end of file and fatal errors apart from a busy socket |
| XmlRpcSource.GatherIs | src/xmlrpcpp/XmlRpcSource.cpp:102-142 | one read gathers all data up to the first result that is none: an end of file is told, a busy socket is not, an error fails |
| XmlRpcSource.NbWrite | src/xmlrpcpp/XmlRpcSource.cpp:146-186 | the loop advances by exactly the bytes accepted, which are the next bytes of the text |
| HttpHeader.ScanStays | src/xmlrpcpp/XmlRpcServerConnection.cpp:95-108 | once the end of a header has been found, further bytes change nothing about what was found |
| HttpHeader.LookAtFragment | src/xmlrpcpp/XmlRpcServerConnection.cpp:79-155 | with any number of a message's bytes received, the header is incomplete until the first byte of the body, and from then on scanned as the header alone would be |
| HttpMessage.GeneratedHeader | src/xmlrpcpp/XmlRpcServer.cpp:506-521 | a generated header is complete, and its length field is read as the body's length if and only if that is below 2^31 |
| HttpMessage.ServerHeaderFrames | src/xmlrpcpp/XmlRpcServer.cpp:506-521 | the server's header frames its body for the reader, for bodies below 2^31 bytes and no others |
| HttpMessage.ClientHeaderFrames | src/xmlrpcpp/XmlRpcClient.cpp:306-354 | the client's header frames its body likewise, for every URI and host without line ends |
| HttpMessage.ServerHeaderText | src/xmlrpcpp/XmlRpcServer.cpp:506-521 | the server's header as it goes over the wire |
| HttpMessage.ClientHeaderText | src/xmlrpcpp/XmlRpcClient.cpp:306-354 | the client's header as it goes over the wire |
| Framing.LengthStays | src/xmlrpcpp/XmlRpcServerConnection.cpp:123-138 | a length field is read the same with body bytes behind the header as without |
| ServerConnection.XmlRpcServerConnection.ScanHeader | src/xmlrpcpp/XmlRpcServerConnection.cpp:93-108 | the scan finds the first blank line and the last length and connection fields before it, comparing one byte less than it has |
| ServerConnection.XmlRpcServerConnection.ReadHeaderBytes | src/xmlrpcpp/XmlRpcServerConnection.cpp:79-155 | the new state and result of `readHeader`, on every header and every read; which connections it keeps is what `ConnectionField.KeptByText` says |
| ServerConnection.XmlRpcServerConnection.ReadRequestBytes | src/xmlrpcpp/XmlRpcServerConnection.cpp:159-189 | the new state and result of `readRequest` |
| ServerConnection.XmlRpcServerConnection.WriteResponseBytes | src/xmlrpcpp/XmlRpcServerConnection.cpp:193-226 | the request is executed if there is no response yet; the bytes written are the next of the response; behind the last one the buffers are empty |
| ServerConnection.XmlRpcServerConnection.HandleSocketEvent | src/xmlrpcpp/XmlRpcServerConnection.cpp:62-76 | one event takes the connection through as many states as its reads and writes allow; its bytes, server and flag are those of the state machine, and the written count stays within the response |
| ServerFailures.HeaderFails | src/xmlrpcpp/XmlRpcServerConnection.cpp:79-138 | `readHeader` gives the connection up if and only if the read fails, the header tells no positive length, or the file ends within it |
| ServerFailures.RequestFails | src/xmlrpcpp/XmlRpcServerConnection.cpp:159-189 | `readRequest` gives it up if and only if the body is not complete and the read fails or the file ends; the response is due exactly if the body is complete |
| ServerFailures.FailureDrops | src/xmlrpcpp/XmlRpcServerConnection.cpp:62-226 | a connection that fails is dropped at this event, with nothing executed and nothing written behind what the socket took before its error |
| ServerSession.HeaderFragment | src/xmlrpcpp/XmlRpcServerConnection.cpp:79-155 | after any fragment the buffers hold exactly the bytes received so far |
| ServerSession.RequestFragment | src/xmlrpcpp/XmlRpcServerConnection.cpp:159-189 | the same for the body; with its last byte the request buffer is the whole body and the response is due |
| ServerSession.KeepAliveRun | src/xmlrpcpp/XmlRpcServerConnection.cpp:193-226 | over any run of requests, fragments and partial writes the connection stays open, what it has written is the beginning of the responses in order, each to its exact body, executed once; between requests all buffers are empty and everything has been written |
| ServerSession.OneEventServes | src/xmlrpcpp/XmlRpcServerConnection.cpp:62-226 | one event that can read the rest of a request and write the response serves it |
| ServerSession.NotKeptRun | src/xmlrpcpp/XmlRpcServerConnection.cpp:193-226 | on a connection that is not kept, over any fragments and writes: the request is executed at most once and the connection closes at the event that completes it; the response goes out whole if and only if the socket takes all of it at that event |
| ServerSession.WholeRequestAtOnce | src/xmlrpcpp/XmlRpcServerConnection.cpp:129-155 | a request that comes in one piece is buffered as it was sent, and not waited for, if and only if its body has no NUL |
| ServerSession.KeepAliveExactly | src/xmlrpcpp/XmlRpcServerConnection.cpp:140-149 | whether the connection is kept, or not kept, comes out the same at every cut if and only if judging by the header and judging by header and body agree |
| ServerSession.KeptExactly | src/xmlrpcpp/XmlRpcServerConnection.cpp:140-149 | it is kept at every cut, or not kept at every cut, if and only if it is so judging by the header and judging by header and body |
| ConnectionField.KeptByText | src/xmlrpcpp/XmlRpcServerConnection.cpp:103-149 | a request is kept at every cut if and only if its last connection field does not begin with "close", or, with "HTTP/1.0" in header or body, begins with "keep-alive"; it is not kept at any cut if and only if that field begins with "close", or, with "HTTP/1.0" in the header, does not begin with "keep-alive" |
| ConnectionField.LineIsLast | src/xmlrpcpp/XmlRpcServerConnection.cpp:103-108 | the last connection field is the one of the last line that begins with its name, in any case |
| ConnectionField.CallFitsExactly | src/xmlrpcpp/XmlRpcClient.cpp:306-354 | the requests that `execute` generates are kept at every cut, and so covered by the results on whole runs, if and only if neither their lines nor their body hold "HTTP/1.0", as long as they can be framed and read |
| ConnectionField.PlainCallFits | src/xmlrpcpp/XmlRpcClient.cpp:306-354 | as every call without parameters of a method with a plain name does |
| Messages.RequestRoundTrip | src/xmlrpcpp/XmlRpcServer.cpp:370-415 | `parseRequest` returns the method name and the parameters `generateRequest` was given, an empty array as no parameters and a single value as one, when no empty client identification is in the text |
| Messages.MethodNameExactly | src/xmlrpcpp/XmlRpcClient.cpp:262-304 | the method name arrives if and only if it does not hold its own end tag and the text no empty client identification |
| ClientIdentification.RequestHasNone | src/xmlrpcpp/XmlRpcServer.cpp:375-388 | a request for a method without '<' in its name holds no client identification at all, whatever its parameters |
| MessageSpellings.ReadsRequest | src/xmlrpcpp/XmlRpcServer.cpp:370-415 | `parseRequest` on every request in which the method name comes first: attributes, empty parameters and sections, parameters without a value, and any spelling of those that have one; behind one that cannot be read, itself unset, all others are lost |
| MessageSpellings.NamelessRequest | src/xmlrpcpp/XmlRpcServer.cpp:390-398 | a request without a method name calls the method of the empty name |
| MessageSpellings.ReadsResponse | src/xmlrpcpp/XmlRpcClient.cpp:514-560 | `parseResponse` on every response: a result or a fault in any spelling, 0 for an empty result, and a failure with the fault 0 for an empty or unreadable fault |
| MessageSpellings.ReadsClientId | src/xmlrpcpp/XmlRpcServer.cpp:375-388 | the client's identification is the text between its first mark and the next question mark, less the quotation marks around it |
| Messages.ResponseRoundTrip | src/xmlrpcpp/XmlRpcClient.cpp:514-560 | `parseResponse` returns the value that `generateResponse` was given, and no fault |
| Messages.FaultRoundTrip | src/xmlrpcpp/XmlRpcServer.cpp:524-540 | a fault arrives as the struct of its code and text, marked as a fault, if and only if the text has no NUL; with one there is no reply |
| XmlRpcServer.MulticallPointwise | src/xmlrpcpp/XmlRpcServer.cpp:437-483 | a multicall returns if and only if every call in it can be served where its turn comes; then it has one slot for each call, in order, filled in the state its predecessors left |
| XmlRpcServer.SlotOfCall | src/xmlrpcpp/XmlRpcServer.cpp:452-480 | a slot is the one-element array of the result or the fault struct of the exception, also of an unknown name and of a value that is no call; exactly the calls with a method name of another type, an unregistered multicall or a method that does not return cannot be served |
| XmlRpcServer.ExplicitSlot | src/xmlrpcpp/XmlRpcServer.cpp:452-480 | for the struct of a name and parameters, as callers build it, the slot and the new state are what the method of the name gives on these parameters, an unset result being the empty string |
| XmlRpcServer.ExplicitMulticall | src/xmlrpcpp/XmlRpcServer.cpp:437-483 | slot i of a multicall of such structs is what the method of call i gives on its parameters, in the state the calls before have left; it returns if and only if no call in it names a method that does not, or an unregistered multicall |
| XmlRpcServer.NoCallSlot | src/xmlrpcpp/XmlRpcServer.cpp:452-466 | a value that is no struct, or lacks one of the two members, gets the fault on its arguments and leaves the state |
| XmlRpcServer.UnnamedSlot | src/xmlrpcpp/XmlRpcServer.cpp:452-466 | an unset method name is the empty one, and any other value that is no string ends the multicall with an exception |
| XmlRpcServer.BadArguments | src/xmlrpcpp/XmlRpcServer.cpp:437-450 | a multicall whose parameters are not one array is answered with a fault and executes nothing |
| XmlRpcServer.DepthExactly | src/xmlrpcpp/XmlRpcServer.cpp:437-483 | the loop with its recursion followed to any depth: where a multicall is said not to return no depth brings a result, and everywhere else every depth brings the same one |
| XmlRpcServer.AddedMethodAnswers | src/xmlrpcpp/XmlRpcServer.cpp:66-71 | the method added last under a name is the one that answers the calls of the name, with their parameters |
| XmlRpcServer.OtherMethodsAnswer | src/xmlrpcpp/XmlRpcServer.cpp:66-89 | adding and removing it changes no answer to a request for another name, multicalls aside |
| XmlRpcServer.RemovedMethodFaults | src/xmlrpcpp/XmlRpcServer.cpp:73-89 | calls of a removed method get the fault of an unknown name and execute nothing |
| XmlRpcServer.Server.AddMethod | src/xmlrpcpp/XmlRpcServer.cpp:66-71 | from now on the method answers every call of its name, and no other call is answered otherwise |
| XmlRpcServer.Server.RemoveMethod | src/xmlrpcpp/XmlRpcServer.cpp:73-89 | from now on every call of the name gets a fault, and no other call is answered otherwise |
| XmlRpcServer.Server.ReadClientId | src/xmlrpcpp/XmlRpcServer.cpp:377-388 | the identification between its marks, without quotes; undefined exactly if there is nothing, or one quote, between them |
| XmlRpcServer.Server.ReadCall | src/xmlrpcpp/XmlRpcServer.cpp:370-415 | the name and parameters of `Messages.RequestRoundTrip`, from any text, or undefined behaviour as `Definedness.MessagesDefined` says |
| XmlRpcServer.Server.ReadParameters | src/xmlrpcpp/XmlRpcServer.cpp:397-409 | the loop reads every `<param>` that follows, in order, an unreadable one as unset |
| XmlRpcServer.Server.ExecuteMethod | src/xmlrpcpp/XmlRpcServer.cpp:418-434 | the method of the name runs, if there is one; an unset result becomes the empty string |
| XmlRpcServer.Server.ExecuteCall | src/xmlrpcpp/XmlRpcServer.cpp:452-480 | the slot of one call and the state behind it |
| XmlRpcServer.Server.ExecuteMulticall | src/xmlrpcpp/XmlRpcServer.cpp:437-483 | the loop over the calls yields the slots of `MulticallPointwise` |
| XmlRpcServer.Server.HandleRequest | src/xmlrpcpp/XmlRpcServer.cpp:340-364 | the response to a request is that of its method, else of the multicall, else the fault of an unknown method or of the exception; where the parsing is undefined nothing is promised |
| XmlRpcDispatch.RemovedOnce | src/xmlrpcpp/XmlRpcDispatch.cpp:73-83 | removal takes one registration of the source and none of another |
| XmlRpcDispatch.AddedOnce | src/xmlrpcpp/XmlRpcDispatch.cpp:66-70 | addition makes one registration more |
| XmlRpcDispatch.MaskKeepsRegistrations | src/xmlrpcpp/XmlRpcDispatch.cpp:86-97 | a change of mask registers and removes nothing |
| XmlRpcDispatch.Dispatch.RemoveSource | src/xmlrpcpp/XmlRpcDispatch.cpp:73-83 | the loop takes out the first entry of the source, and only that |
| XmlRpcDispatch.Dispatch.SetSourceEvents | src/xmlrpcpp/XmlRpcDispatch.cpp:86-97 | the loop changes the mask of the first entry of the source, and only that |
| ClientMachine.ParseHeaderPart | src/xmlrpcpp/XmlRpcClient.cpp:411-476 | with any number of a response's bytes received, `parseHeader` waits until the first byte of the body and then buffers exactly the body's part |
| ClientMachine.WorkSafe | src/xmlrpcpp/XmlRpcClient.cpp:162-193 | at every point of every run of the dispatcher: at most one reconnect, one registration, the bytes written are the request from its first on, later states only with the whole of it, and the response buffer holds the body's part of whatever message begins with the bytes read |
| ClientMachine.ClientReads | src/xmlrpcpp/XmlRpcClient.cpp:383-510 | each event buffers exactly the bytes it delivers and goes on watching exactly as long as bytes are missing |
| ClientMachine.FirstBodyBytes | src/xmlrpcpp/XmlRpcClient.cpp:443-476 | of the body's bytes that come in with the end of a framed header all are buffered if and only if they hold no NUL; else the client waits for bytes it has been given |
| Interim.InterimExactly | src/xmlrpcpp/XmlRpcClient.cpp:419-441 | a header of any lines in front of a framed response, ended by either blank line, leaves it framed if and only if the words "100 Continue" stand directly before that blank line, and something before them |
| XmlRpcClient.ExecuteSafe | src/xmlrpcpp/XmlRpcClient.cpp:124-158 | within one `execute`, whatever the sockets do: at most two connections and one registration; a result only after the whole request was written on the last connection and Content-length bytes were read, and no reply otherwise; if the bytes read begin a framed message, they are all of it and the result is its body's |
| XmlRpcClient.ScanClientHeader | src/xmlrpcpp/XmlRpcClient.cpp:414-441 | the scan finds the first blank line that ends no interim response, and the last length field before it |
| XmlRpcClient.RpcClient.CloseConnection | src/xmlrpcpp/XmlRpcClient.cpp:101-110 | no connection, the dispatcher told to end, the registration gone |
| XmlRpcClient.RpcClient.SetupConnection | src/xmlrpcpp/XmlRpcClient.cpp:196-217 | a new or kept connection, as `ConnectionUse.ExecuteUses` says, the request to be written from its first byte, one registration |
| ConnectionUse.ExecuteUses | src/xmlrpcpp/XmlRpcClient.cpp:196-217 | `execute` begins on the connection of the call before exactly if that call left the client idle without an end of file; in every other state that connection is given up, and without a new one nothing is sent or read and `execute` fails |
| ClientFailures.FailureEnds | src/xmlrpcpp/XmlRpcClient.cpp:124-158 | at a failed write or read, an end of file too early, or a header without a positive length, `execute` ends: false, no reply, no registration, and the connection closed or in a state in which the next call gives it up |
| XmlRpcClient.RpcClient.WriteRequestBytes | src/xmlrpcpp/XmlRpcClient.cpp:356-380 | the bytes written are the next of the request; behind the last one the header is awaited |
| XmlRpcClient.RpcClient.ReadHeaderBytes | src/xmlrpcpp/XmlRpcClient.cpp:383-407 | the bytes read join the header; a closed kept connection leads to one new attempt |
| XmlRpcClient.RpcClient.ParseHeaderText | src/xmlrpcpp/XmlRpcClient.cpp:411-476 | waiting, an error, or the response's first bytes, by the header so far |
| XmlRpcClient.RpcClient.ReadResponseBytes | src/xmlrpcpp/XmlRpcClient.cpp:479-510 | the bytes read join the response; it is complete by its length |
| XmlRpcClient.RpcClient.HandleEvent | src/xmlrpcpp/XmlRpcClient.cpp:162-193 | one event takes the client through as many states as its reads and writes allow, safely |
| XmlRpcClient.RpcClient.ProcessSources | src/xmlrpcpp/XmlRpcDispatch.cpp:206-293 | every entry of the copied list is handled and its mask updated, safely |
| XmlRpcClient.RpcClient.RunDispatcher | src/xmlrpcpp/XmlRpcDispatch.cpp:100-157 | the rounds go on until the list is empty, the dispatcher is told to end, time is up or `select` fails |
| XmlRpcClient.RpcClient.ExecuteCall | src/xmlrpcpp/XmlRpcClient.cpp:124-158 | a call during a call is refused without effect; otherwise client, result and fault flag are those of `ExecuteSafe`, unless the response's parsing is undefined |
| XmlRpcClient.RpcClient.ParseReply | src/xmlrpcpp/XmlRpcClient.cpp:514-560 | result and fault flag of the response's text, of any text, or undefined behaviour as `Definedness.MessagesDefined` says |
| EndToEnd.RequestArrives | src/xmlrpcpp/XmlRpcClient.cpp:262-354 | the client's request is framed for the server if and only if its body is below 2^31 bytes, and its body is read as the call that was made |
| EndToEnd.ResponseArrives | src/xmlrpcpp/XmlRpcServer.cpp:486-540 | the server's response is framed for the client if and only if its body is below 2^31 bytes, and its body is read as the result or fault that was given |
| EndToEnd.BodyExecuted | src/xmlrpcpp/XmlRpcServer.cpp:340-364 | executing a request's body is executing the call that was made, in any state, and its answer frames and carries the outcome |
| ServerHub.HubRun | src/xmlrpcpp/XmlRpcServerConnection.cpp:62-234 | every run of the whole server, over any number of connections, any fragments, partial writes, ends of file and errors: its state is what the executions made of it one after the other; on each connection that carries framed and kept requests these are executed in order, each at most once, and what it has written is the beginning of their answers, whatever bytes come in on the others at any time |
| ServerHub.AnythingArrives | src/xmlrpcpp/XmlRpcServerConnection.cpp:62-76 | the runs are not limited: connections are made at any time, and any bytes arrive on an open one |
| Calls.CallAndReply | src/xmlrpcpp/XmlRpcClient.cpp:124-217 | for every call, method table, reachable server, run of the server and run of `execute`, and whatever comes in on other connections: at most one execution for each connection used, at most two of these, and only one without a retry or without keeping connections; if the client has read what the server wrote on the last one and ends with a response complete by its length, then the request was sent whole and executed exactly once there, exactly once at all if it is the only connection, and `execute` delivers the result or fault of that execution |
| Calls.ExecutedTwice | src/xmlrpcpp/XmlRpcClient.cpp:383-400 | such a run with two executions, for every call: request written, executed, connection lost before a byte of the response, request written again on the next; the result is that of the second execution, in the state the first one left |
| Calls.CallsAndReplies | src/xmlrpcpp/XmlRpcClient.cpp:124-217 | any number of calls, on connections kept or made anew, among whatever else the server does and receives: each one is settled as above, in the server's state at its turn, and what it reads are bytes written during it; that a kept connection is at rest, with nothing of an earlier answer left on it, is derived |
| ClientProgress.ExecuteCompletes | src/xmlrpcpp/XmlRpcClient.cpp:124-193 | a client that keeps its connection: as soon as its sockets have taken the request and delivered a framed response, in any pieces, `execute` returns what that response says; and rounds that each bring a byte, as many as there are bytes and one more, deliver all |
| ClientProgress.ExecuteAfterLoss | src/xmlrpcpp/XmlRpcClient.cpp:383-400 | the same over a connection that is lost behind the request and a second one |
| ClientProgress.NotKeptNeverReturns | src/xmlrpcpp/XmlRpcDispatch.cpp:279-291 | with `keepOpen` off `execute` never returns true, whatever is sent and received: the source is closed before it looks whether the response is complete |
| Calendar.DaysBeforeClosed | src/support/date.cxx:176-195 | in every year the mixed-radix count of days is 365 per year and the usual leap days, with quotients rounded down, and one more in the years before year 1 that do not mirror a leap year |
| Calendar.StepAddsOne | src/support/date.cxx:302-313 | in every year a step leads to a valid date, the next day of that count |
| Calendar.StepExactly | src/support/date.cxx:302-313 | a step keeps a date valid, in every year, and adds exactly 1 to the day of the epoch, except exactly on the last day of a year up to 0 that is a leap year or mirrors one |
| Calendar.YearZeroMisses | src/support/date.cxx:176-195 | the last day of year 0 and the day after it have the same number |
| Calendar.EpochFits | src/support/date.cxx:176-195 | the day of the epoch is positive and fits an `int` for all years up to 5879610 |
| Calendar.OrderIsCalendar | src/support/date.cxx:336-357 | in all years, `<` and `==` on valid dates are `<` and `==` on that count of days |
| Calendar.OrderIsEpoch | src/support/date.cxx:336-357 | from year 1 on, `<` and `==` on dates are `<` and `==` on days of the epoch |
| Calendar.WeekStep | src/support/date.cxx:197-200 | the day of the week advances by 1 modulo 7 with a step if and only if the day of the epoch is not negative and is not one of those exceptions |
| Calendar.WeekStepAfterYearOne | src/support/date.cxx:197-200 | so it does on every date from year 1 on |
| Calendar.WeekRepeats | src/support/date.cxx:197-200 | it is the same 400 years later if and only if both years are counted alike and the day of the epoch does not change its sign or is a multiple of 7 |
| Calendar.WeekBegins | src/support/date.cxx:197-200 | it counts from Sunday: 1 January 2000 is a Saturday |
| Calendar.AdvanceExactly | src/support/date.cxx:328-333 | in all years, `+= n` reaches the one valid date n days later; a negative n moves nothing |
| Calendar.AdvanceTwice | src/support/date.cxx:328-333 | in all years, `+= a` and then `+= b` is `+= (a + b)` if and only if a and b do not have opposite signs |
| Calendar.EveryDayOnce | src/support/date.cxx:170-195 | every positive number is the day of the epoch of exactly one valid date |
| Calendar.MonthMoveExactly | src/support/date.cxx:202-228 | a move by a month gives a valid date, with the day cut down to the month's length, if and only if the new year is at most 2035 and the move is not from a 31st into a 30-day month of a leap year |
| Calendar.MonthMovesOne | src/support/date.cxx:202-228 | counted from year 0 the move is one month on or back, December and January included, before the day is cut down |
| Calendar.SpoiltForever | src/support/date.cxx:202-228 | from the date that such a move leaves, any number of steps counts on to the 32nd and further, and never leads to a valid date |
| Calendar.StepsRecover | src/support/date.cxx:294-313 | from any date, stepping leads to a valid one if and only if the day is not past the last of its month |
| Calendar.Date.HelpIncrement | src/support/date.cxx:302-313 | the object moves to the next date; a valid date stays valid and is one day further |
| Calendar.Date.Add | src/support/date.cxx:328-333 | the loop steps any date n times; a valid one is then valid and n days further |
| Calendar.Date.MoveMonth | src/support/date.cxx:202-228 | the loop counts the day down as `MonthMoveExactly` says |
| ByteStack.CStack.constructor | src/support/cstack.cxx:3-8 | an empty stack of the given size, or of 50 |
| ByteStack.CStack.Push | src/support/cstack.cxx:10-17 | a byte goes on top if there is room, else nothing changes, and the result tells |
| ByteStack.CStack.Pop | src/support/cstack.cxx:19-26 | the top byte comes off; an empty stack stays empty, and the result tells |
| ByteStack.PushedAllFits | src/support/cstack.cxx:10-17 | a run of pushes keeps what was there and adds, in order, as many bytes as there is room for |
| SerialLink.SendBounds | src/support/kcat_io.cxx:75-97 | whatever the line does: at most 2 writes and 100 reads; every byte read is the acknowledgement, which comes last and is the verdict, or is pushed, in order |
| SerialLink.SendExactly | src/support/kcat_io.cxx:75-97 | with complete writes the verdict is that of the first acknowledgement among the next 100 bytes, else failure; the command is written again exactly if none is among the first 50 |
| SerialLink.Link.SendCmd | src/support/kcat_io.cxx:55-101 | the nested loops yield verdict, result text, counts and stack of the above, each write hands over the command between STX and ETX, and the watchdog is set; in testing mode they touch nothing |
| SerialLink.FrameAndTexts | src/support/kcat_io.cxx:55-101 | the bytes of a command on the wire, the bytes of the two acknowledgements, and the texts of the three verdicts |
| RadioThreads.RunSafe | src/support/kcat_io.cxx:67-97 | every step of every interleaving keeps: an acknowledgement is under way only to the command that holds the mutex and arrives before it gives up |
| RadioThreads.Pairing | src/support/support.cxx:1124-1139 | so at any time of any run in which the radio answers in time: none is outstanding while the mutex is free, every finished `sendCmd` got the verdict on its own command, written once; no acknowledgement is on the telemetry stack; every telemetry byte read is in hand, on the stack, popped or dropped, exactly once |
| RadioThreads.PairingExactly | src/support/kcat_io.cxx:75-97 | with a radio that answers every write in turn, commands and acknowledgements stay so paired in all runs if and only if fewer than 50 other reads come before an acknowledgement |
| RadioThreads.StaleRun | src/support/kcat_io.cxx:75-97 | with one read more a run lets the acknowledgement of a command's second write wait for the next command, which the radio rejects and which is told it was accepted |
| RadioThreads.RefinesSendCmd | src/support/kcat_io.cxx:75-97 | under any interleaving a command that returns has done exactly what the loops of `sendCmd` do on its bytes: verdict, writes, reads and pushes |
| RadioThreads.NothingDropped | src/support/support.cxx:1124-1139 | nothing is dropped while the stack has room |
| RadioThreads.AnswersInOrder | src/support/kcat_io.cxx:67-97 | over every run, whichever thread reads: the radio's answers are read in the order of the writes, each once, and those not read are still to come |
| Telemetry.ShowKeepsOne | src/support/support.cxx:1082-1122 | exactly one of the signal and transmit meters is active, always, and nothing shown is taken back |
| Telemetry.OldestDecides | src/support/support.cxx:1082-1122 | the stack is shown newest first, so the active meter in the end is that of its oldest meter byte |
| Telemetry.ShowsReadings | src/support/support.cxx:1082-1122 | the readings shown are those of all bytes of the stack, from the top down |
| Telemetry.BlanksIdle | src/support/support.cxx:1082-1122 | signal bytes make the signal meter active and transmit bytes the transmit meters; the other is blanked exactly when it goes idle |
| Telemetry.ValueIsSent | src/support/support.cxx:1082-1122 | a byte shows one reading exactly if it is the byte by which the radio sends this reading, and nothing exactly if no reading is sent by it |
| Telemetry.Display.Parse | src/support/support.cxx:1082-1122 | the loop empties the stack and shows every byte of it, once |
| TuningWord.FrequencyBack | src/support/kcat_io.cxx:176-188 | without correction, rounding the inverse formula on a word gives its frequency back, for every frequency |
| TuningWord.Calibration | src/support/kcat_io.cxx:176-182 | the word's scale: nothing at 75 MHz below zero, 2.2369621333 counts for a hertz, and what a unit of each correction adds |
| TuningWord.WordsOrdered | src/support/kcat_io.cxx:176-188 | so words are ordered as frequencies are |
| TuningWord.IncreasingExactly | src/support/kcat_io.cxx:181-183 | with any correction the words increase with every hertz if and only if the slope is at least one count per hertz |
| TuningWord.BytesDecode | src/support/kcat_io.cxx:184-187 | the four bytes decode to the antenna bits and the word, independently, whatever was there before; the word comes through whole if and only if it fits 30 bits; the rest of the command stays |
| TuningWord.Overlay | src/support/kcat_io.cxx:183-188 | the bytes taken off the word one by one are those of `BytesDecode` |
| TuningWord.TopBytesError | src/UI/dialogs.cxx:555-569 | the frequency read back from the two top bytes is at most half a count too high and less than 65535.5 counts too low, if and only if the word is at least 65536 |
| AntennaTable.Table.Sort | src/UI/dialogs.cxx:210-221 | the exchange sort leaves a sorted permutation of the rows in use and the rest of the array as it is |
| AntennaTable.Table.Clear | src/UI/dialogs.cxx:223-233 | the empty map |
| AntennaTable.Table.Slot | src/UI/dialogs.cxx:280-287 | the search ends at the frequency's row, else at the first free slot, and runs off the array if and only if the table is full, its last slot holds another dropped row and the frequency is new |
| AntennaTable.Table.Add | src/UI/dialogs.cxx:274-295 | on every table: exactly where the search runs off the array the original writes behind it; else the table stays strictly ascending and padded, and is the updated map if and only if it was not full or had the frequency; a row dropped from a full table stays in the last slot, so that every further new frequency is written behind the array |
| AntennaTable.WritesBehind | src/UI/dialogs.cxx:274-295 | this is within reach: from the table the program starts with, 191 additions of new frequencies lead there |
| AntennaTable.Table.Delete | src/UI/dialogs.cxx:297-309 | the table stays strictly ascending and padded, and is the map without the chosen row |
| AntennaTable.DistinctIsFunctional | src/UI/dialogs.cxx:274-295 | a table's rows are a map: one row for a frequency |
| AntennaTable.BitsTellAntennas | src/support/kcat_io.cxx:157-168 | the antenna bits differ exactly if one of the two antennas does |
| AntennaTable.BitsChoose | src/support/kcat_io.cxx:157-168 | the top bit is the receiving antenna and the one below it the transmitting one, inverted, for rows of the table and for the choices by hand |
| AntennaTable.CoversOnly | src/support/kcat_io.cxx:164-171 | in an ascending table the row found from the top is the only one that starts the tuned range |
| AntennaTable.CoverExists | src/support/kcat_io.cxx:164-171 | and there is one unless all ranges start above the frequency |
| AntennaTable.Table.AntPort | src/support/kcat_io.cxx:159-173 | the bits choose the antennas taken by hand, or those of the row with the greatest start not above the frequency, or the first |
| AntennaTable.Table.SetVfo | src/support/kcat_io.cxx:159-188 | the command decodes to the frequency's word and to bits that choose its antennas: those taken by hand, or those of the range that covers it, or the first |
| Macros.ReplaceLoop | src/UI/dialogs.cxx:2183-2196 | a loop of find and replace, on exactly the messages and texts for which it ends, leaves no such tag |
| Macros.ApartEnds | src/UI/dialogs.cxx:2183-2196 | it ends for texts without the tag that begin with no end of it and end in no beginning of it: then it does one pass from the left and turns once for each tag that was there |
| Macros.ReplaceAllEnds | src/UI/dialogs.cxx:2183-2196 | it ends for texts that bring no opening or no closing bracket, and turns once for every bracket that goes away |
| Macros.OwnTagEnds | src/UI/dialogs.cxx:2183-2196 | with a text that holds its own tag it ends if and only if the message has no such tag |
| Macros.GrowingNeverEnds | src/UI/dialogs.cxx:2183-2196 | but a text without its own tag can keep it turning for ever as well: `>><X<X` in `<X<X>` |
| Macros.ReplaceAllTokens | src/UI/dialogs.cxx:2183-2196 | on tags and literals without an opening bracket it is one substitution of all tags of the kind |
| Macros.Simultaneous | src/UI/dialogs.cxx:2179-2226 | the whole expansion is one simultaneous substitution on the upper-cased message: each tag becomes its text, only the first `<LOG>` goes away, and the serial number changes by the numbers of `<+>` and `<->`, but not below 1 |
| Macros.TagsStandFor | src/UI/dialogs.cxx:2179-2211 | which field of the station stands for which tag |
| Macros.SerialCounts | src/UI/dialogs.cxx:2212-2220 | on any message the serial number changes by the brackets the two loops took away, but not below 1, and no `<->` is left |
| Macros.NewTag | src/UI/dialogs.cxx:2212-2219 | tags inside of tags can leave new tags behind, so the literals' condition is needed |
| Macros.HarmlessEnd | src/UI/dialogs.cxx:2179-2226 | for station texts of either kind above the expansion ends, on every message |
| Macros.ExpandMsg | src/UI/dialogs.cxx:2179-2226 | the sequence of loops yields message, serial number and log record of the above, whenever its loops end |
| Meters.SlidesAreLast | src/widgets/Fl_SigBar.cxx:131-141 | after any run of readings a window holds the last of all readings, what stood in it at first counting as readings |
| Meters.SlidesForget | src/widgets/Fl_SigBar.cxx:131-141 | after as many readings as it is long, nothing older is left in it |
| Meters.SigBar.SetAging | src/include/Fl_SigBar.h:69-72 | an aging of 1 to 10 is kept less one, any other is 10 |
| Meters.SigBar.Peak | src/widgets/Fl_SigBar.cxx:131-141 | after any sequence of calls the peak is the greatest of the last aging + 1 readings, padded with the initial zeros, or the reading itself for an aging below 2 |
| Meters.RingSum | src/support/support.cxx:897-903 | the ring in use is a rotation of the last readings and has their sum |
| Meters.TemperatureDisplay.Update | src/support/support.cxx:895-906 | after any sequence of calls the value is the mean of the last 50 readings, or of all while there are fewer, in the chosen unit |
| Meters.CentigradeScale | src/support/support.cxx:895-906 | the scale: freezing and boiling at 213 and 253 counts, 2.5 degrees for each |

## Left out

- RoundTrip: doubles, dates and binary data are kept as the text they were read from, with the library's conversions as a parameter; their printed form does not read back in the original either.
- LexemeFromXml: of `strtod`, `sscanf` and the Base64 decoder only where they stop and whether they accept is modelled, as arbitrary functions.
- Reads: text under `<double>` is not among the spellings, because only the library knows where it ends; see `DoubleElement`.
- Values of an array or struct are held in datatypes: the sharing and freeing of `XmlRpcValue` objects is not modelled.
- Offsets and lengths within a text are unbounded; a text of 2^31 characters or more is not covered, but for the length field of the header.
- Requests are generated without the optional client identification, because nothing in the program sets it, and without the HTTP login.
- KeepAliveRun: the next request is sent when the response to the one before is out, and writes do not fail; pipelined requests have no theorem about their answers.
- NotKeptRun: one request on its connection, judged alike at every cut in the sense of `KeptExactly`; reads do not fail.
- CallAndReply: on the connections of this client the requests are ones these are kept for, in the sense of `KeptExactly`, and bytes arrive in order; a server that crashes or never returns from a request, whoever sent it, does nothing further, while the model's run goes on with an arbitrary answer that no theorem looks at.
- CallsAndReplies: the answers to the calls before can be framed in every state of the server, and the bytes that the client reads on a connection are bytes written on it.
- BodyExecuted: names and parameters are those for which the request round trip holds, and bodies are below 2^31 bytes.
- The dispatcher is modelled as one client's: further sources, `clear` and the descriptor sets are not.
- Introspection methods, accepting of connections, SSL, and the system calls behind reads, writes and `select` are not modelled.
- ExecuteSafe: time enters as the round in which `work` gives up.
- `operator==` of values is not modelled; equality of values is structural throughout.
- Dates are not formatted or printed, and Julian dates are not computed; the increment operators only return a date before or behind `HelpIncrement`; the moves by a year only subtract a day from a 29 February.
- Pairing: one stack operation is one step, the command's bytes are those at the time of the call, and the assumptions on the radio are stated in `Fair` and `Honest`: complete writes, one acknowledgement for each of them, in order and with fewer than 50 other reads before it, and no telemetry byte 0xFE or 0xFF.
- SendCmd: the buffer has the command's size, while the original allocates one byte and writes behind it; a write is complete or not, and the bytes of an incomplete one are not followed; `RequestData` is the same loop with another reply byte and is left out.
- FrequencyBack: arithmetic is over the reals; the rounding of `double` is not modelled.
- Overlay: a negative word, whose conversion C++ leaves undefined, is excluded, and the low six bits and the antenna bits of a byte are joined by a sum, since they do not overlap.
- Add: behind the array nothing is modelled: the contract says exactly when the original writes there, and what the table is up to that write.
- ReplaceLoop: for texts that are of none of the three kinds it may or may not end, depending on the message; no rule that decides it is given.
- Macros: upper-casing is that of the C locale, and the serial number is unbounded.
- Update: the printing of the mean is not modelled.
- User interface code, preferences, colour tables and the setters that only send a command are left out: they would only add easy members.
