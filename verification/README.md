# MirrorLink client: verified model

A Dafny 4.11 model of the byte-stream protocols of the MirrorLink client, with proofs about
every input, every run and every reachable state.

- **Transport** (`Socket.dfy`, `Conn.dfy`, `Buffer.dfy`): `select`, `read` and `write` answer
  from arbitrary scripts of events (short transfers, interruptions, would-block, time-outs,
  failures, end-of-file). A script that has run out is followed by a cooperative tail: the rest of
  the stream is delivered and the peer closes. A `Quiet` socket is one whose scripts hold no
  failure, time-out, exceptional condition or early end-of-file; everything else may happen.
- **VNC session** (`RfbWire`, `RfbParse`, `RfbFraming`, `RfbClient`, `RfbRuns`, `RfbLoop`,
  `RfbHandshake`, `RfbEffects`, `VncSession`): an encoder for a server's messages written from RFC 6143 and
  the MirrorLink layouts, what the client takes off a stream, the round trip between the two in
  both directions, safety over whole runs, the closed loop with a server over two queues, and the
  session of `vnc_session.c` as a class whose loops are proved against all of this. The session's
  contracts mention only the stream, never the scripts, so they also say that the state, the
  recorded messages and the octets sent do not depend on how the transport cut or interrupted it.
  `RfbEffects` says the same of every rectangle and message in octets and numbers, without the names
  that parser and session share. The session's contracts hold at every moment of a run: after any number of turns of the message loop, whether or not
  the stream ever comes to a ByeBye.
- **HTTP** (`CText`, `Str`, `HttpRequest`, `HttpResponse`, `HttpClient`): C strings and the scan
  and print directives the code uses, the request and its round trip, and the response loop that
  starts over on every prefix received.
- **Text and lists** (`Ssdp`, `RemoteText`, `RemoteServer`, `Clients`): the SSDP line scan in
  place, the application list and the client list in place, and the print/scan pairs.

Wire layouts follow RFC 6143 (sections 7.1 to 7.8 and Appendix A), RFC 1945 (sections 5, 6 and
10.4) and the UPnP Device Architecture 1.0 (section 1.2); the MirrorLink extension layouts are
those of the code.

Where the code does not meet what its standard promises, the model keeps the code and the proofs
give the exact condition:

- A server's rectangles and messages are recovered iff they conform (`RfbFraming.RectConforms`,
  `RfbFraming.MessageConforms`): Raw rectangles inside the desktop of that moment, run-length
  rectangles with one row for every desktop row, no payload in any other encoding.
- SetColourMapEntries as RFC 6143 section 7.6.2 lays it out is never framed correctly: the client
  reads a header that is one octet longer.
- An HTTP response is read the same way on every cut that ends the loop iff no more follows its header
  than was declared (or nothing was declared); an input that fails is in `HttpResponse.TooMuchBodyFails`.
- The declared length of a request is what is sent iff the method is POST: other methods than GET
  declare a body and do not send it.
- If the connection ends before a response is complete, the client returns what digits of the status
  it has and no body. That is the response itself, or nothing, iff no digit but leading zeros has
  arrived, or the status has and there is no body, or everything has (`HttpResponse.EarlyEndExact`;
  inputs in `HttpResponse.EarlyEndFails`).
- The reason of a refused handshake is dropped exactly iff its length reads the same in both octet
  orders, because the client does not convert it.
- LaunchApplication reports success as 0; 200 means that the address could not be read.

## Model

| member | source | states |
|---|---|---|
| Environment.Poll | UI/conn.c:103-116 | which event a `select` reports next; it times out only with a time limit and reports an exceptional condition only while that is watched |
| Environment.QuietExactly | UI/conn.c:103-138 | a quiet transport has no time-out, failed `select`, exceptional condition, end-of-file or failed write; everything else is allowed |
| Environment.Socket.Select | UI/conn.c:103-116 | the count returned is the number of bits left in the two sets; a quiet socket is either interrupted or readable |
| Environment.Socket.Read | UI/conn.c:124-136 | never asked for zero octets; stores the next octets of the stream in order and nothing else; the answer is that of its event, 0 only when the peer has closed |
| Environment.Socket.Write | UI/conn.c:220-232 | accepts a prefix of what it is given; the answer is that of its event |
| Conn.SelectRetrying | UI/conn.c:103-116 | an interrupted `select` is repeated; the answer is that of the last event, and none that would end the transfer is passed over |
| Conn.ReadRetrying | UI/conn.c:123-131 | only interruptions are repeated, and nothing is lost or stored twice; the answer is that of the last event |
| Conn.ReadReady | UI/conn.c:117-138 | one pass over the ready set stores one read, or ends with -1 exactly on an exceptional condition and with -3 only at end-of-file |
| Conn.ReadTurn | UI/conn.c:102-139 | one turn waits and reads once: -2 only at a time-out, -1 only at a failed `select` or an exceptional condition, -3 only at end-of-file |
| Conn.ConnRead | UI/conn.c:84-142 | for every script: the octets stored are the next ones of the stream in order, the rest of the buffer is unchanged, 0 iff all were stored and none beyond; -1, -2 and -3 are the answers to their own events, at which the transfer ends, and no other event ends it; on a quiet socket 0 iff the stream holds enough, else -3 |
| Conn.ReadMore | UI/conn.c:170-185 | every read finds 1024 free octets, and the buffer's content grows by exactly what was read |
| Conn.DrainReady | UI/conn.c:164-188 | one pass drains until the first read that would block (0) or finds the end (-3), and reads nothing after it |
| Conn.DrainTurn | UI/conn.c:154-188 | one turn waits and drains; -1 only at a failed `select` or an exceptional condition |
| Conn.ConnReadAll | UI/conn.c:144-190 | for every script: content = old content + everything read, length within capacity, zeros behind the content, 1024 octets free afterwards; 0 is the answer to the first read that would block, -3 to the end, -1 to a failed `select` or an exceptional condition, and nothing is read after any of them |
| Conn.WriteRetrying | UI/conn.c:219-232 | only interruptions are repeated, and nothing is sent twice; the answer is that of the last event |
| Conn.WriteReady | UI/conn.c:214-234 | one pass over the ready set sends a part, or ends with -1 only on an exceptional condition or a failed write |
| Conn.ConnWrite | UI/conn.c:192-238 | at every exit the octets accepted are a prefix of the input in order, all of it iff 0 is returned; -1 only at a failed `select` or write or an exceptional condition, and none of these is passed over |
| Buffers.Buffer.Init | UI/buffer.c:7-14 | an empty buffer of zeros, without memory for size 0 |
| Buffers.Buffer.Append | UI/buffer.c:24-33 | room for more without changing the content or breaking the zero tail; the memory is replaced iff it was too small |
| Buffers.Buffer.Clear | UI/buffer.c:16-22 | the empty buffer without memory |
| RfbFraming.RowsRoundTrip | CoreStack/vnc_session.c:443-456 | the row loop recovers every list of run-length rows and ends where they end |
| RfbFraming.RowsMisaligned | CoreStack/vnc_session.c:443-456 | reading another number of rows than were sent never ends where they end |
| RfbFraming.RectExact | CoreStack/vnc_session.c:353-411 | a rectangle is recovered iff it conforms to the desktop of that moment, and exactly its octets are consumed iff it conforms |
| RfbFraming.RectsExact | CoreStack/vnc_session.c:341-412 | a list of rectangles is recovered iff each conforms to the desktop as the earlier ones have resized it |
| RfbFraming.MessageExact | CoreStack/vnc_session.c:139-193 | a message is recovered iff it conforms, and then exactly its octets are consumed |
| RfbFraming.ColourMapNeverAligned | CoreStack/vnc_session.c:153-166 | a SetColourMapEntries message of RFC 6143 section 7.6.2 is never consumed exactly |
| RfbFraming.RunRoundTrip | CoreStack/vnc_session.c:136-193 | at every moment of a run, the messages sent so far are recovered iff every one conforms in the state it meets, with every octet consumed |
| RfbFraming.FramingRoundTrip | CoreStack/vnc_session.c:136-193 | for every conversation ending in ByeBye, the loop on its encoding recovers exactly it iff every message conforms in the state it meets; it then stops at the ByeBye with every octet consumed |
| RfbParse.SessionIsFirst | CoreStack/vnc_session.c:136 | the loop is over within a number of turns iff the whole session has no more messages than that, and has then taken in exactly the session |
| RfbFraming.RectSound | CoreStack/vnc_session.c:353-411 | on every stream, the rectangle recorded encodes to the octets consumed |
| RfbFraming.MessageSound | CoreStack/vnc_session.c:139-193 | on every stream, the message recorded encodes to the octets consumed |
| RfbFraming.RunSound | CoreStack/vnc_session.c:136-193 | on every stream and after every number of turns, the messages recorded encode to the octets consumed, one for every turn unless a ByeBye ended the loop, which is then the last |
| RfbFraming.SessionSound | CoreStack/vnc_session.c:136-193 | on every stream that comes to a ByeBye, the messages recorded encode to the octets consumed, and the loop stopped at the first ByeBye and not before |
| RfbClient.ClientRoundTrip | CoreStack/vnc_session.c:284-297 | each message the client sends is decoded by a server to what was meant (RFC 6143 section 7.5) |
| RfbClient.ClientsRoundTrip | CoreStack/vnc_session.c:211-298 | everything the client sends is decoded to the same messages in order |
| RfbRuns.RequestsOfMessage | CoreStack/vnc_session.c:341-428 | one request for an update that refreshes anything, one more on entering status 2; the status never decreases |
| RfbRuns.FlowControl | CoreStack/vnc_session.c:284-298 | in every run, requests sent = refreshing updates received + 1 once status 2 is reached |
| RfbRuns.SizeIsLatest | CoreStack/vnc_session.c:388-395 | in every run the size held is that of the latest DesktopSize rectangle, else the initial one |
| RfbRuns.EveryRequest | CoreStack/vnc_session.c:413-425 | every request of every run has origin (0,0) and the latest size, and is non-incremental iff it is the opening one or answers an update that resizes |
| RfbRuns.ConfigurationsOfMessage | CoreStack/vnc_session.c:211-299 | a message adds exactly the configuration messages between its status before and after |
| RfbRuns.ConfigurationOrder | CoreStack/vnc_session.c:211-299 | in every run the configuration messages sent are a prefix of display, event, pixel format, each at most once, and the status says how long a prefix |
| RfbRuns.WhatTheServerSees | CoreStack/vnc_session.c:211-299 | flow control and configuration order, stated on the octets a server decodes |
| RfbRuns.RawSafety | CoreStack/vnc_session.c:360-377 | on every stream, after any number of messages and of rectangles of an update begun after them, every payload given to the raw handler has 2·w·h octets and its rectangle lies inside the desktop of that moment |
| Bytes.OverwriteIs | UI/conn.c:124 | what a read of octets to an offset leaves in memory, octet by octet |
| RfbEffects.ReadsAreBigEndian | CoreStack/vnc_session.c:353-357 | 16 and 32-bit words are read high octet first |
| RfbEffects.WordsAreBigEndian | CoreStack/vnc_session.c:418-424 | and are written so |
| RfbEffects.RectOctets | CoreStack/vnc_session.c:353-411 | the layout of every rectangle with its encoding number in octets |
| RfbEffects.RowOctets | CoreStack/vnc_session.c:446-454 | a row is a 16-bit count and three octets for each run |
| RfbEffects.MessageOctets | CoreStack/vnc_session.c:144-188 | the layout of every message with its type number |
| RfbEffects.RectLegalExactly | CoreStack/vnc_session.c:353-411 | exactly which rectangles RFC 6143 and MirrorLink allow at 16 bits a pixel |
| RfbEffects.MessageLegalExactly | CoreStack/vnc_session.c:139-193 | exactly which messages they allow |
| RfbEffects.RectConformsExactly | CoreStack/vnc_session.c:360-411 | exactly which rectangles the client frames, in numbers |
| RfbEffects.MessageConformsExactly | CoreStack/vnc_session.c:139-193 | exactly which messages it frames: each rectangle is judged by the desktop that the ones before it leave, configurations by the 12 and 28 octets of their structs |
| RfbEffects.RawTaken | CoreStack/vnc_session.c:360-377 | a Raw rectangle that ends at or before the right and lower edges is read whole and handed to the raw handler with the desktop size of that moment |
| RfbEffects.RawSkipped | CoreStack/vnc_session.c:366-368 | one that is a column or a row too large is passed over after its header and not handed on |
| RfbEffects.RawEmpty | CoreStack/vnc_session.c:363-365 | one without area is taken and not handed on |
| RfbEffects.RectTaken | CoreStack/vnc_session.c:379-411 | what is consumed of every other rectangle; only DesktopSize resizes |
| RfbEffects.LatestExactly | CoreStack/vnc_session.c:388-391 | the last DesktopSize rectangle gives the size, and without one it stays |
| RfbEffects.AnsweredExactly | CoreStack/vnc_session.c:361-411 | an update is answered iff it has a rectangle of encoding 0, -524, -223 or -525, and resizes iff it has one of -223 |
| RfbEffects.AnswerOctets | CoreStack/vnc_session.c:413-425 | the ten octets that answer an update, or none |
| RfbEffects.DisplayTaken | CoreStack/vnc_session.c:211-246 | a first display configuration of at most 12 octets gives status 1, its copy, and the 26 octets of the client's |
| RfbEffects.EventTaken | CoreStack/vnc_session.c:248-299 | an event configuration of at most 28 octets after it gives status 2, its copy, and the 62 octets of the three replies |
| RfbEffects.ByeByeAnswered | CoreStack/vnc_session.c:202-210 | ByeBye is answered with 128, 0, 0, 0 and changes nothing |
| RfbEffects.OthersChangeNothing | CoreStack/vnc_session.c:300-336 | no other message changes anything or is answered |
| RfbEffects.ConfigurationTaken | CoreStack/vnc_session.c:197-199 | an extension message is consumed whole unless its configuration overruns its struct |
| RfbEffects.ColourMapTaken | CoreStack/vnc_session.c:153-166 | the code's own header of six octets; colours have no room |
| RfbEffects.StatusExactly | CoreStack/vnc_session.c:211-299 | in every run from status 0, the status is at least 1 iff a display configuration has come, and 2 iff an event configuration has come after one |
| RfbEffects.ConfiguredOnStream | CoreStack/vnc_session.c:136-299 | the same on every stream after every number of turns |
| RfbEffects.ConfigurationsExactly | CoreStack/vnc_session.c:213-281 | which client messages configure, and in which order |
| RfbEffects.RequestsExactly | CoreStack/vnc_session.c:284-427 | a message provokes one request iff it is an update with a known rectangle, or the event configuration at status 1 |
| RfbEffects.WholeOutput | CoreStack/vnc_session.c:23-299 | everything the client writes, up to any moment, reads as version, security type 1, flag 0, SetEncodings, and the answers in order |
| RfbLoop.StepKeepsInv | CoreStack/vnc_session.c:413-427 | requests under way + requests held by the server + updates under way is conserved by every step of client and server |
| RfbLoop.AtMostOneOutstanding | CoreStack/vnc_session.c:413-427 | in every state of every asynchronous run at most one request is outstanding, and exactly one iff the client is configured |
| RfbLoop.UpdateIsAnsweredAtOnce | CoreStack/vnc_session.c:413-427 | after every refreshing update taken in, the client's new request is the only thing outstanding |
| RfbHandshake.HandshakeExact | CoreStack/vnc_session.c:30-107 | the message loop is reached iff the version is 3.7 or 3.8, None is offered, and for 3.8 the result is zero; exactly the handshake is consumed and the size is that of ServerInit |
| RfbHandshake.HandshakeSound | CoreStack/vnc_session.c:30-107 | whatever stream gets through starts with an acceptable handshake of exactly that length |
| RfbHandshake.AcceptableExactly | CoreStack/vnc_session.c:30-88 | acceptance in the octets of the standard |
| RfbHandshake.HelloOctets | CoreStack/vnc_session.c:30-107 | the layout of what the server sends |
| RfbHandshake.RefusalExact | CoreStack/vnc_session.c:30-88 | what has been written when a handshake is refused |
| RfbHandshake.GreetingOctets | CoreStack/vnc_session.c:30-134 | what the client writes reads as version, security type 1, ClientInit 0 and SetEncodings, in this order and with nothing left |
| RfbHandshake.AdvertisedIsFramed | CoreStack/vnc_session.c:109-134 | a rectangle of an encoding that SetEncodings does not name, or of the MirrorLink announcement, is recovered iff it has no payload; one of any other encoding named there is recovered iff it conforms |
| RfbHandshake.WholeStream | CoreStack/vnc_session.c:23-137 | after an acceptable handshake what the server has sent so far is recovered to its last octet iff it conforms |
| VncSessions.VncSession.FramebufferRleParse | CoreStack/vnc_session.c:443-456 | one row for every desktop row; the 16-bit counter does not wrap |
| VncSessions.VncSession.RectParse | CoreStack/vnc_session.c:348-411 | consumes, resizes and calls the raw handler as the stream says, on every quiet transport |
| VncSessions.VncSession.FbUpdateParse | CoreStack/vnc_session.c:341-428 | all rectangles in turn and then the one request they call for; the 16-bit counter does not wrap |
| VncSessions.VncSession.ServerCutTextParse | CoreStack/vnc_session.c:430-436 | consumes the text |
| VncSessions.VncSession.TakeDisplay | CoreStack/vnc_session.c:211-246 | status 1, the payload over the struct, and the 26 octets of the client's display configuration |
| VncSessions.VncSession.TakeEvent | CoreStack/vnc_session.c:248-299 | status 2, the payload over the struct, then event configuration, RGB 565 pixel format and the opening request |
| VncSessions.VncSession.ExMessageParse | CoreStack/vnc_session.c:195-339 | the payload is consumed whatever the kind and status; replies and status follow the first configuration of each kind; false exactly after ByeBye |
| VncSessions.VncSession.TakeUpdate | CoreStack/vnc_session.c:144-152 | a FramebufferUpdate is taken in as the stream has it, with its effect on state, handler calls and output |
| VncSessions.VncSession.TakeDropped | CoreStack/vnc_session.c:153-180 | colour maps, bells, cut texts and unknown types are consumed as the stream has them and change nothing |
| VncSessions.VncSession.DoWorks | CoreStack/vnc_session.c:139-193 | one turn takes in exactly the next message of the stream, with its effect on state, handler calls and output |
| VncSessions.VncSession.Handshake | CoreStack/vnc_session.c:30-134 | outcome, size, octets consumed and octets written are those of the stream's handshake |
| VncSessions.VncSession.ReceiveInit | CoreStack/vnc_session.c:96-98 | the buffer holds the 24 octets before the name |
| VncSessions.VncSession.ReceiveName | CoreStack/vnc_session.c:99-101 | the name is consumed into a reallocated buffer that keeps the size fields |
| VncSessions.VncSession.Initialise | CoreStack/vnc_session.c:90-107 | width and height are ServerInit's although the buffer is reallocated before they are read |
| VncSessions.VncSession.SendEncodings | CoreStack/vnc_session.c:109-134 | the octets written are the SetEncodings message of RFC 6143 section 7.5.2 |
| VncSessions.VncSession.DropReason | CoreStack/vnc_session.c:79-84 | if the octets are there, exactly the length in host order is consumed |
| VncSessions.ReasonExact | CoreStack/vnc_session.c:79-84 | a reason of RFC 6143 section 7.1.2 is consumed exactly iff its length reads the same in both orders; no non-empty one shorter than 65792 octets is |
| VncSessions.VncSession.SecurityHandshake | CoreStack/vnc_session.c:42-71 | None is chosen iff it is offered, and the type list is then consumed exactly |
| VncSessions.VncSession.ResultHandshake | CoreStack/vnc_session.c:73-88 | success iff the result word is zero |
| VncSessions.VncSession.Loop | CoreStack/vnc_session.c:136 | after any number of turns: exactly the messages, state, handler calls and output of so many messages of the stream; over exactly if the last was a ByeBye |
| VncSessions.VncSession.Task | CoreStack/vnc_session.c:23-137 | for every quiet transport and at every turn of the loop, the whole session is a function of the stream alone |
| Str.StrAppend | UI/str.c:7-22 | the old text followed by the new; appending nothing keeps a null string null |
| HttpClient.HttpReq.Make | UI/http_client.c:11-17 | a request with the method and path and nothing else |
| HttpClient.HttpReq.AddHeader | UI/http_client.c:19-22 | header text accumulates in order |
| HttpClient.HttpReq.SetBody | UI/http_client.c:24-31 | a GET takes no body; an empty text leaves none |
| HttpClient.HttpReq.Build | UI/http_client.c:47-61 | the text written is the request text of its fields |
| HttpRequest.LinesRoundTrip | UI/http_client.c:47-58 | header lines are read back in order up to the blank line |
| HttpRequest.HostRoundTrip | UI/http_client.c:49 | host and port are read back from the Host line, whatever the host is |
| HttpRequest.RequestRoundTrip | UI/http_client.c:47-61 | reading a written request gives back method, path, host, port, headers and body; a length header iff there is a body |
| HttpRequest.RequestOctets | UI/http_client.c:47-61 | the request octet by octet |
| HttpRequest.DeclaredLengthIsSent | UI/http_client.c:51-61 | the declared length is the number of octets after the blank line iff the method is POST |
| HttpResponse.StatusScan | UI/http_client.c:80-83 | a three-digit status is scanned to its value |
| HttpResponse.LengthFound | UI/http_client.c:84-91 | on every prefix the length header, in either spelling, is found iff its name is complete |
| HttpResponse.LengthScan | UI/http_client.c:92-98 | on every prefix the length is absent, a positive part of it, or exact |
| HttpResponse.TryPrefix | UI/http_client.c:74-110 | what one turn of the loop makes of every prefix of a response; nothing cut short ends the loop |
| HttpResponse.CompleteResponse | UI/http_client.c:69-111 | a response with the declared body gives its own status and body on every cut that ends the loop, and ends the loop when complete |
| HttpResponse.SegmentationExact | UI/http_client.c:99-106 | all cuts agree iff the body is not longer than declared, or nothing was declared |
| HttpResponse.TooMuchBodyFails | UI/http_client.c:99-106 | a well-formed response of which two cuts give different bodies |
| HttpResponse.StatusStays | UI/http_client.c:80-83 | a status once scanned is still scanned when more has arrived |
| HttpResponse.StatusPrefix | UI/http_client.c:80-83 | the status field on every prefix of a response: 0, one digit, two, or the status |
| HttpResponse.OutcomeOfPrefix | UI/http_client.c:69-115 | what the caller gets when the connection ends after any number of octets of a response |
| HttpResponse.EarlyEndExact | UI/http_client.c:69-115 | that is the response or nothing iff no digit but leading zeros has arrived, or the status has and there is no body, or everything has |
| HttpResponse.EarlyEndFails | UI/http_client.c:69-115 | a response cut after one digit of 200 is taken as 2, and one cut before its body as 200 without a body |
| HttpResponse.PlainIsWellFormed | UI/http_client.c:80-99 | every plain status line with a Content-Length, true or not, and a body is such a response |
| HttpResponse.PlainOctets | UI/http_client.c:80-99 | such a response octet by octet, with the header name in either spelling |
| HttpClient.Attempt | UI/http_client.c:79-110 | one turn ends the loop iff the text received is complete, with its status and body |
| HttpClient.BufferText | UI/http_client.c:78-79 | after one octet more is reserved, the C string in the buffer is the text of its content |
| HttpClient.ReceiveMore | UI/http_client.c:74-78 | one drain; the buffer holds everything received, and no read that would block was passed over |
| HttpClient.Receive | UI/http_client.c:69-111 | status and body are exactly those of the octets received when the loop ended, complete or not; at every earlier read that would block the text was incomplete, so that a complete one is not waited on; a quiet connection ends an incomplete response only when everything was received |
| HttpClient.NeverMisread | UI/http_client.c:69-111 | a response with its declared length, anywhere on a stream, is never misread however much of it was received; when all of it was, the loop has ended |
| HttpClient.ReceivedWhole | UI/http_client.c:69-115 | wherever the loop ends by a complete text or after the last octet, the caller gets the response |
| HttpClient.Send | UI/http_client.c:33-120 | the whole request is written on a quiet socket; the result is exactly that of the octets received, null iff their status reads as 0; on a quiet socket every response with its declared length is returned whole, however it was cut |
| CText.Find | UI/http_client.c:84-87 | the first occurrence, or none |
| CText.FindInPrefix | UI/http_client.c:84-87 | searching a prefix finds what searching the whole finds, if there is room |
| CText.SignedScan | UI/http_client.c:80 | a sign is read, and a minus negates |
| CText.ValueOfDec | UI/http_client.c:52 | a printed number has the value that was printed |
| Ssdp.StrTok | UI/ssdp.cpp:57-65 | the next non-empty line, ended by a NUL in place, with the rest of the buffer intact |
| Ssdp.Context.HandleSsdpResp | UI/ssdp.cpp:51-84 | only the slot named by the last ST scanned changes, and it becomes the last Location scanned |
| Ssdp.TargetsDiffer | UI/ssdp.cpp:23-25 | the three targets differ, so that a response names at most one slot |
| Ssdp.ServiceTargets | UI/ssdp.cpp:23-24 | the targets of the two services |
| Ssdp.LastLineWins | UI/ssdp.cpp:59-63 | a later line overrides an earlier one, and a line with "ST: " in it sets no Location |
| Ssdp.SlotsSuffice | UI/ssdp.cpp:54-78 | for a datagram of at most 1024 octets, which is what the caller reads, the two local texts and the slots are large enough |
| Ssdp.ResponseRoundTrip | UI/ssdp.cpp:57-65 | a printed response with one ST and one Location, in any order and among any other headers, is scanned back |
| Ssdp.HostIsInert | UI/ssdp.cpp:59-60 | HOST contains "ST: " and yet sets nothing |
| Ssdp.CreateSsdpMessage | UI/ssdp.cpp:27-36 | the buffer holds the six lines of the search request and a NUL, and the length is theirs |
| Ssdp.SearchOctets | UI/ssdp.cpp:27-36 | the search request line by line |
| Ssdp.SearchNamesItsTarget | UI/ssdp.cpp:27-36 | the search request scans back to its own target and to no location |
| RemoteText.AppIdRoundTrip | UI/remote_server.c:101 | every 32-bit identifier printed with 0x%08x is scanned back with %x |
| RemoteText.UnprefixedAppId | UI/remote_server.c:252 | they are scanned without the prefix too |
| RemoteText.HexDigits | UI/remote_server.c:252 | digits have their values, in either case |
| RemoteText.UriRoundTrip | UI/remote_server.c:296 | every non-empty host without a colon and every port are scanned back from VNC://host:port |
| RemoteText.UriScanExact | UI/remote_server.c:296 | exactly which addresses give a host, and which a port |
| RemoteServers.App.Fill | UI/remote_server.c:248-269 | each field is the last one given for the application |
| RemoteServers.OneMoreParam | UI/remote_server.c:248-269 | what one more parameter changes |
| RemoteServers.OneAppListing | UI/remote_server.c:242-273 | a listing of one application is read back, with the address of the first of its icons |
| RemoteServers.RemoteServer.Prepend | UI/remote_server.c:270-271 | the list stays acyclic and starts with the new application |
| RemoteServers.RemoteServer.AddApps | UI/remote_server.c:242-273 | the list is the reverse of the document's applications, followed by the list before |
| RemoteServers.AppsAppend | UI/remote_server.c:242-273 | the applications of two listings in turn, in document order |
| RemoteServers.DocumentPaths | UI/remote_server.c:228-296 | where the two responses hold the listing and the address |
| RemoteServers.RemoteServer.GetApplicationListParse | UI/remote_server.c:227-281 | the same for a whole response; other documents leave the list as it was |
| RemoteServers.TwoListings | UI/remote_server.c:242-273 | two responses in turn leave what their concatenation would |
| RemoteServers.RemoteServer.LaunchApplicationParse | UI/remote_server.c:283-306 | host and port are stored as far as they scan; 1 iff one of them does not |
| RemoteServers.RemoteServer.ReportLaunch | UI/remote_server.c:203-224 | after a 200 response the status is 200 iff the address did not scan, and 0 on success |
| Clients.Context.AddClient | UI/main.cpp:26-41 | the list stays acyclic and represents the old sequence with one entry more |
| Clients.Context.RemoveClient | UI/main.cpp:43-66 | the first entry of the descriptor goes and 0 is returned, or -1 and nothing changes |
| Clients.RemoveFirstAt | UI/main.cpp:52-64 | removing takes out exactly the first match |
| Clients.AddThenRemove | UI/main.cpp:26-66 | adding a fresh descriptor and removing it restores the list |
| Clients.DescriptorsAreIndependent | UI/main.cpp:26-66 | in every history the entries of a descriptor depend only on its own additions and removals |

## Left out

- VncSessions.VncSession.Task: assumes that no read or write fails, that the stream holds the handshake and the messages of the turns considered, and that C defines what the code does with them; the code ignores a failed read and would loop on.
- VncSessions.VncSession.Loop: the recorded messages are ghost, put together from the octets the code reads; the code itself drops all payloads but the raw handler's and the two configurations'.
- VncSessions.VncSession.DropReason: the host order is taken to be little-endian; where a reason cut short leaves the stream is not stated.
- Conn.ConnRead: the time limit of a multi-octet read is never initialised by the code, so a time-out may come at any point.
- RfbRuns.RawSafety: a Raw rectangle of 2^31 octets or more inside the desktop overflows a C `int` and is outside the model, as are extension payloads larger than their structs, colour maps with entries and ServerInit names of 2^31 octets or more.
- HttpClient.Send: takes the connection as given; the lines printed to fixed buffers must fit them.
- HttpResponse.TryPrefix: numbers that do not fit a C `int` are reduced modulo 2^32; what `sscanf` does with them is undefined.
- RemoteServers.RemoteServer.GetApplicationListParse: takes the parsed XML trees; a document whose path stops short of an expected child makes the code follow a null pointer.
- RemoteServers.RemoteServer.ReportLaunch: the SOAP envelope around an action is not modelled.
- RemoteText.AppIdRoundTrip: hexadecimal numbers of more than 64 bits are reduced modulo 2^32 where the C library would saturate.
- `remote_server_create`, `remote_server_set_client_profile` and `remote_server_destory`: fixed text, and a walk that indexes before it knows the service.
- The main select loop, netlink, multicast and socket set-up; USB; Qt windows, signals and threads: system calls and user interface.
- Allocation failure, `free`, logging, and the empty senders at the end of `vnc_session.c`.
