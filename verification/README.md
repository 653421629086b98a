# Snowcone, verified

Snowcone is an IRC client with a small C++ core and Lua on top. This project models its protocol and
data-structure code in Dafny and proves what that code keeps, step by step and over whole runs.

| part | files |
|---|---|
| receiving: line buffer, in-place message parser, session loop | `LineBuffer`, `IrcMessage`, `InPlaceParser`, `Session`, `StreamLaws`, `TagEscape`, `MessageText` |
| sending: command formatter, two-buffer writer; both ends joined | `Send`, `Connection`, `EndToEnd` |
| Base64 and SASL | `Base64`, `Base64Laws`, `Sasl` |
| SOCKS5 client | `Socks5` |
| network topology and channel membership | `Upstream`, `LinkTable`, `Membership` |
| message store and its window | `OrderedMap`, `RotatingWindow` |
| line editor | `EditorHistory`, `Editor` |
| filter language, capability negotiation, network masks | `FilterLanguage`, `CapNegotiation`, `MaskTracker`, `NetTracker` |

`Bytes` holds octets and the scanning functions. `dafny verify dfyconfig.toml` checks everything.

## How to read it

Code that changes state is a class or a method over an array, and its contract ties the new state to a function
of the old one; the theorems are lemmas about those functions. A class field that the source does not have is
ghost, or stands for the other side of a socket. What the environment decides (the size of each read, when a write
completes, the order in which a table is walked, when the collector runs, what the server says) is a parameter or
an arbitrary choice, so the statements hold for all of it.

The main results, one per part:

- **End to end.** `EndToEnd.Transfer`: any accepted calls, written through the two buffers with completions
  anywhere and read in any chunking, come out as exactly those commands and arguments.
- **Chunk independence.** `Session.SessionThread`, `StreamLaws.ReceiveIs`, `StreamLaws.BufferFullIff`.
- **In place equals pure.** `InPlaceParser.ParseIrcMessage`, `Session.ParseAndPreload`; and the pure parser inverts
  printing: `MessageText.MessageReadBackIff`.
- **SASL.** `Sasl.TaskSucceedsIff`, `Sasl.TaskOutcome`, `Sasl.BodiesOverTheWire`; **Base64:** `Base64.RoundTrip`,
  `Base64Laws.EncodeIs`, `Base64Laws.DecodeIs`.
- **SOCKS5.** `Socks5.RunIsProper`, `Socks5.SuccessReadsExactly`, `Socks5.RunEndsWith`.
- **Upstream tree.** `Upstream.Search`; **membership:** `Membership.Irc.Follow`.
- **Message store.** `OrderedMaps.OrderedMap.Lookup`, `RotatingWindow.DrawInsertDraw`,
  `RotatingWindow.ScrolledDrawsAgree`, `RotatingWindow.ScrolledViewStaysIff`.
- **Editor.** `Editors.Editor.KillRun`, `Editors.Editor.BackAndForth`, `Editors.Editor.ForthAndBack`,
  `Editors.Editor.TabRun`.
- **Filter language.** `FilterLanguage.Compile`, `FilterLanguage.PrintThenCompile`.
- **Packing and counting.** `CapNegotiation.SendReqs`, `NetTrackers.NetTracker.Watch`.

## Where the code is not what one would expect

The model follows the code. Where a naive claim fails, the exact condition is proved; lemmas named
beside it give inputs that break it.

- `push_host` puts a length octet before IPv4 and IPv6 addresses, which the formats of section 5 of RFC 1928 do not
  have: the request is read back if and only if the target is a host name (`Socks5.RequestReadBackIff`).
- `escapeval` leaves a backslash alone: escaping is inverted exactly on values without one (`TagEscape.RoundTrip`).
- `decode` skips every byte outside the alphabet, padding included (`Base64.DecodeFilter`): a piece may be decoded
  separately from whatever follows it if and only if it holds whole groups (`Base64.DecodeAppendIff`).
- A capability name of 502 bytes fits a line by itself but fails an assertion when it comes first
  (`CapNegotiation.SendReqs`).
- Section 2 of RFC 1929 has usernames and passwords of at least one octet; empty ones pass the checks at the start
  (`Socks5.CredentialsReadBackIff`).
- After `rekey`, older entries under the same key are out of the index (`OrderedMaps.RekeyKeepsNewestIff`,
  `OrderedMaps.RekeyLosesOlder`).
- The table built from the replies to LINKS depends on their order, and a later report of a server drops the back
  links collected before it (`LinkTable.TableIs`, `LinkTable.LeafFirst`); in tree order nothing is lost
  (`LinkTable.TreeCoversAll`).
- RPL_ENDOFLINKS without any reply before it raises when a hub is configured (`LinkTable.Network.RplEndOfLinks`).
- `send.lua:44` passes the arguments of `error` in the wrong order; it still raises, and counts as a rejection.
- A mask with a partial byte behind the end of its network raises; a longer whole-byte prefix compares the whole
  address (`MaskTrackers.MaskTracker.constructor`).
- The scroll pin counts only entries that pass the filter while the offset skips raw entries. While scrolled, the view
  stays if and only if none of the entries in the resulting gap passes: always without a filter, and with one when
  every insert passes, but not in general (`RotatingWindow.ScrolledViewStaysIff`, `RotatingWindow.FilteredViewMoves`).
- `reset` keeps the pin and zeroes the ticker, so the offset can become negative; then the view moves
  (`OrderedMaps.WalkWraps`, `RotatingWindow.NegativeOffsetMoves`).

## Model

| member | source | states |
|---|---|---|
| LineBuffers.LineBuffer.constructor | client/net/linebuffer.hpp:39-45 | a new buffer of the given size holds nothing, with all three cursors at the front |
| LineBuffers.LineBuffer.Prepare | client/net/linebuffer.hpp:58-61 | the space offered to a read is all that lies behind the buffered bytes |
| LineBuffers.LineBuffer.Commit | client/net/linebuffer.hpp:75-78 | received bytes are appended to the pending ones; nothing else changes |
| LineBuffers.LineBuffer.NextLine | client/net/linebuffer.cpp:3-19 | a line is handed out exactly when a newline is pending; it is terminated text without its newline and one carriage return, the pending bytes are those behind the newline, and only bytes already handed out are written |
| LineBuffers.LineBuffer.FindNewline | client/net/linebuffer.cpp:5-10 | resuming the search where it stopped still finds the first pending newline |
| LineBuffers.LineBuffer.Shift | client/net/linebuffer.cpp:21-31 | moving the partial line to the front with an overlapping copy keeps the pending bytes |
| InPlaceParser.Parser.constructor | ircmsg/ircmsg.cpp:21-27 | the parser starts at the text with leading spaces skipped |
| InPlaceParser.Parser.Word | ircmsg/ircmsg.cpp:34-42 | returns the text before the first space, terminated in place, and continues at the next non-space; writes stay inside the consumed range |
| InPlaceParser.Parser.Match | ircmsg/ircmsg.cpp:47-53 | consumes one character exactly when it is the expected one |
| InPlaceParser.StrSep | ircmsg/ircmsg.cpp:123-124 | cuts a string at the first separator, leaving two terminated strings, or the whole when there is none |
| InPlaceParser.UnescapeTagValue | ircmsg/ircmsg.cpp:85-114 | the in-place decoder yields the decoded value, inside the original bytes; the write cursor never passes the read cursor |
| InPlaceParser.UnescapeFrom | ircmsg/ircmsg.cpp:92-113 | the copying loop from the first backslash on refines the recursive decoder, a lone trailing backslash included |
| InPlaceParser.ParseIrcTag | ircmsg/ircmsg.cpp:123-132 | one tag: both views lie in its text and read what the pure parser gives; an empty key is the only error |
| InPlaceParser.ParseIrcTags | ircmsg/ircmsg.cpp:118-136 | the whole tag list: earlier views survive the later in-place writes |
| InPlaceParser.ParseArgsStage | ircmsg/ircmsg.cpp:168-175 | the argument loop equals the recursive grammar of middle and trailing arguments |
| InPlaceParser.ParseIrcMessage | ircmsg/ircmsg.cpp:147-178 | every view lies inside the line, the bytes outside it are untouched, and at return the views read exactly what a pure parser makes of the original bytes; same errors |
| InPlaceParser.MessageStable | client/irc/lua.cpp:164-174 | a parsed message keeps its meaning through any write outside its line, which is why the next line may be pre-loaded first |
| TagEscape.RoundTrip | ircc/handlers/commands.lua:229-237 | decoding an escaped tag value gives the value back if and only if it has no backslash |
| TagEscape.RoundTripLength | ircc/handlers/commands.lua:229-237 | decoding an escaped value never makes it longer |
| MessageText.EscapesAre | ircmsg/ircmsg.cpp:93-113 | what each escape stands for: the four listed, any other character itself, and a last backslash nothing |
| MessageText.EscapedIsSafe | ircc/handlers/commands.lua:229-237 | an escaped value holds nothing that ends the value, the tags, or the line |
| MessageText.ParsePieces | ircmsg/ircmsg.cpp:118-136 | tags are the pieces between semicolons, each parsed by itself; one without a key fails all |
| MessageText.EmptyValue | ircmsg/ircmsg.cpp:122-132 | a key with an empty value is the key alone |
| MessageText.WordOff | ircmsg/ircmsg.cpp:34-42 | a word ends at the first space, and all spaces behind it are skipped |
| MessageText.PrefixOff | ircmsg/ircmsg.cpp:149-160 | tags and source are taken off whatever follows them |
| MessageText.MessageReadBackIff | ircmsg/ircmsg.cpp:147-178 | a printed message, with tags, source, command and arguments and any superfluous spaces, is read back as exactly that message if and only if only the last argument needed a colon |
| MessageText.NoCommand | ircmsg/ircmsg.cpp:162-166 | a line with nothing behind its tags and source has no command |
| MessageText.NoKey | ircmsg/ircmsg.cpp:125-127 | a tag without a key fails the message whatever follows |
| Session.GetNonemptyLine | client/irc/lua.cpp:107-121 | the line found is the first one with something after its leading spaces; nothing is found exactly when no complete line has any |
| Session.ParseAndPreload | client/irc/lua.cpp:164-174 | the message read after pre-loading the next line is the parse of the first line |
| Session.Dispatch | client/irc/lua.cpp:164-174 | dispatching the buffered lines commutes with whatever arrives later |
| Session.SessionThread | client/irc/lua.cpp:155-176 | for every stream and every size of every read: the messages delivered and how the session stands are a function of the stream alone |
| Session.ReceiveBuffered | client/irc/lua.cpp:107-176 | buffered bytes can be dispatched before the rest of the stream is known |
| StreamLaws.SplitIsExact | client/net/linebuffer.cpp:3-31 | the reference split into lines and tail loses nothing and leaves no newline in a piece |
| StreamLaws.SplitIsUnique | client/net/linebuffer.cpp:3-31 | it is the only such split |
| StreamLaws.BufferFullIff | client/irc/lua.cpp:157-161 | "line buffer full" is raised exactly when some line the session gets to, or the tail, has no newline in its first N bytes |
| StreamLaws.SomeStop | client/irc/lua.cpp:155-176 | every stream has a piece the session stops at |
| StreamLaws.ReceiveIs | client/irc/lua.cpp:155-176 | the whole outcome of every stream: the messages of the lines before the first that is too long or malformed, and which of the two stopped the session, or the tail it waits with |
| StreamLaws.LineTextIs | client/net/linebuffer.cpp:12-13 | of a line, one carriage return at its end is dropped, and everything from a NUL on |
| StreamLaws.ReceiveAll | client/irc/lua.cpp:155-176 | on a stream of acceptable lines that fit, the messages are those of the plain split, in order, and the tail is what waits |
| StreamLaws.ReceiveResumes | client/irc/lua.cpp:155-176 | a stream may be cut anywhere: the second half continues from the pending tail |
| SendCommand.Send | ircc/utils/send.lua:40-55 | a call is accepted exactly when no argument has NUL, CR or LF, only the last one needs a colon, and the line is at most 512 bytes; what is sent is then the printed line, and otherwise the first thing wrong is the reason given |
| SendCommand.SendableIff | ircc/utils/send.lua:40-55 | the printed text decides: acceptable order, none of the three characters behind the command, 512 bytes with the line end |
| SendCommand.ReadBackIff | ircc/utils/send.lua:37-50 | the colon rule is exact: a printed call parses back to itself if and only if only its last argument needed a colon |
| SendCommand.ParseArgsText | ircc/utils/send.lua:40-50 | printed arguments parse back one by one, up to the first that needed a colon, which swallows exactly the printed text of the rest |
| SendCommand.SentLineReadBack | ircc/utils/send.lua:52-57 | a sent line is one line on the wire, and the session reads the call back from it |
| Connection.Connection.Write | client/net/connection.cpp:17-26 | queues the bytes, starting a write only when none is outstanding |
| Connection.Connection.WriteActual | client/net/connection.cpp:28-34 | swaps the two buffers and starts one write; callable only when none is outstanding |
| Connection.Connection.Complete | client/net/connection.cpp:34-40 | the completion handler empties the sent buffer and chains the next write unless there was an error |
| Connection.RunKeepsInv | client/net/connection.cpp:17-42 | in every run, at most one write is in flight, and the sending buffer is non-empty exactly then |
| Connection.BufferIsStable | client/net/connection.cpp:17-42 | the bytes of an outstanding write do not change until it completes |
| Connection.StepDelivers | client/net/connection.cpp:17-42 | each error-free step keeps the bytes on the wire followed by those owed equal to everything written |
| Connection.RunDelivers | client/net/connection.cpp:17-42 | in every error-free run no byte is lost, duplicated or reordered, and nothing waits without a write under way |
| Connection.Drains | client/net/connection.cpp:34-40 | from every such state two completions at most leave nothing owed |
| Connection.FailureLoses | client/net/connection.cpp:34-40 | a failed write gives up exactly what it had not transmitted, keeps the queue, and starts nothing |
| Connection.SilentUntilWritten | client/net/connection.cpp:17-26 | then nothing reaches the wire until something is written |
| Connection.WriteAfterFailure | client/net/connection.cpp:17-26 | and that write carries the whole queue |
| Connection.RunAppend | client/net/connection.cpp:17-42 | runs compose |
| EndToEnd.ReceiveOne | client/irc/lua.cpp:155-176 | one sent line in front of any stream is one delivered message |
| EndToEnd.ReceivePrefix | client/irc/lua.cpp:155-176 | any prefix of sent lines gives a prefix of the calls, never an error |
| EndToEnd.WireDeliversCalls | client/net/connection.cpp:17-42 | at every moment of every error-free run the receiver has a prefix of the calls, and all of them when the writer is idle |
| EndToEnd.Transfer | client/irc/lua.cpp:155-176 | the same through the receiving code with any chunking: exactly the commands and arguments sent, in order |
| Upstream.Search | dashboard/handlers/irc.lua:169-179 | the walk over the growing queue ends with `upstream` defined on exactly the servers reachable from the hub, and following it from any of them meets the hub in exactly its shortest-path distance; for any order of each inner loop |
| Upstream.Explore | dashboard/handlers/irc.lua:173-178 | one pass over the links of a server, in arbitrary order, keeps the tree and the order of the queue by distance |
| Upstream.NoShorter | dashboard/handlers/irc.lua:169-179 | once all met servers are explored, no path is shorter than the recorded distance |
| Upstream.PathDown | dashboard/handlers/irc.lua:169-179 | the upstream chain of a server is a path from the hub of that length |
| Upstream.TreeIsShortest | dashboard/handlers/irc.lua:169-179 | so the tree is a breadth-first tree |
| LinkTable.Network.RplLinks | dashboard/handlers/irc.lua:152-162 | each reply replaces the row of its server and adds the back link only when the other row exists already |
| LinkTable.Network.RplEndOfLinks | dashboard/handlers/irc.lua:164-181 | the finished table gets its upstream tree; it raises exactly when a hub is configured and no reply came |
| LinkTable.TableIs | dashboard/handlers/irc.lua:157-161 | for every list of replies: a server is in the table iff it was reported, and linked to what its last report says and to those that named it since |
| LinkTable.LeafFirst | dashboard/handlers/irc.lua:152-162 | where the order loses a link: a leaf reported before its hub is in no tree from that hub |
| LinkTable.ReachesRoot | dashboard/handlers/irc.lua:152-162 | in tree order every reported server and the first one reach each other |
| LinkTable.TreeCoversAll | dashboard/handlers/irc.lua:164-181 | then the upstream tree covers the whole network, whichever listed server is the hub |
| Base64.WordArithmetic | base64/base64.cpp:42-44 | on 32-bit words, shifting a sextet in and extracting one are the arithmetic used in this model |
| Base64.WordPacking | base64/base64.cpp:48-62 | so is the packing of a group and of the final partial group |
| Base64.WordOutputs | base64/base64.cpp:75-103 | and so are the output bytes, the shifts of the leftover bits and the tests of the sentinel |
| Base64.ValueInvertsAlphabet | base64/base64.cpp:13-29 | the reverse table and the alphabet are inverse to each other |
| Base64Laws.AlphabetIs | base64/base64.cpp:13-29 | the alphabet is table 1 of RFC 4648 |
| Base64.Encode | base64/include/base64.hpp:20-23 | the encoding has exactly the size computed beforehand |
| Base64.SizesAre | base64/include/base64.hpp:20-34 | both sizes are the least multiples that hold every result |
| Base64.EncodeInto | base64/base64.cpp:35-69 | the encoder fills the output buffer exactly with the encoding |
| Base64.EncodeAppend | base64/base64.cpp:39-47 | whole groups encode independently of what follows |
| Base64Laws.EncodeIs | base64/base64.cpp:35-69 | for every input the characters spell the number that the bytes spell, filled up with zero bits to a whole character |
| Base64Laws.EncodeShape | base64/base64.cpp:58-68 | the characters needed, then the padding of the standard |
| Base64.ShiftLevel | base64/base64.cpp:82-92 | the 32-bit accumulator never wraps, and its sentinel bit reaches the top after exactly four characters |
| Base64.DecodeFailsIff | base64/base64.cpp:71-110 | decoding fails exactly when the number of alphabet characters is one over a multiple of four, and otherwise has three quarters of that number of bytes, never more than the size computed beforehand |
| Base64.DecodeFilter | base64/base64.cpp:79-92 | only the alphabet characters matter: everything else is skipped |
| Base64Laws.DecodeIs | base64/base64.cpp:71-110 | for every accepted text the bytes spell the number of its alphabet characters without the bits that fill no byte |
| Base64.DecodeAppend | base64/base64.cpp:71-110 | a piece with whole groups decodes independently of what follows |
| Base64.DecodeAppendIff | base64/base64.cpp:71-110 | decoding a piece separately from whatever follows it is right if and only if it holds whole groups |
| Base64.PaddedPiecesRunTogether | base64/base64.cpp:71-110 | where it is not: a padded piece followed by itself gives three bytes instead of two |
| Base64.DecodeInto | base64/base64.cpp:71-110 | the decoder stays inside its buffer for every input and on success has written the decoding |
| Base64.DecodeGroup | base64/base64.cpp:39-47 | four characters of an encoding give their three bytes back |
| Base64.RoundTrip | base64/base64.cpp:35-110 | decoding an encoding gives every byte string back |
| Sasl.SendAuthenticate | ircc/sasl/init.lua:25-34 | the commands sent are the 400-byte pieces of the encoding and a closing `+` when the last one is full or the body empty; `send` rejects none |
| Sasl.PiecesAre | ircc/sasl/init.lua:28-33 | piece by piece: 400 bytes each but the last, which is what remains or a plus sign |
| Sasl.PieceLineIs | ircc/sasl/init.lua:29 | the line that goes out for a piece |
| Sasl.AbortSasl | ircc/sasl/init.lua:38-40 | the line that gives up |
| Sasl.GoodPieceIsSendable | ircc/sasl/init.lua:29-32 | every piece passes the checks of `send` and gets no colon |
| Sasl.SaslTask | ircc/sasl/init.lua:125-170 | the receive loop against the step function of the task |
| Sasl.RunAssembles | ircc/sasl/init.lua:130-140 | over any accepted messages the task keeps running and has resumed the mechanism with exactly the assembled payloads |
| Sasl.AssembleBody | ircc/sasl/init.lua:25-34 | one split body is reassembled behind whatever is collected already |
| Sasl.SplitThenAssemble | ircc/sasl/init.lua:130-140 | any list of bodies, empty ones and exact multiples included, is handed over unchanged, with the boundaries at the right message |
| Sasl.TaskReceivesBodies | ircc/sasl/init.lua:125-150 | the same through the task, whatever the mechanism does, each body answered |
| Sasl.BodiesOverTheWire | ircc/sasl/init.lua:25-34 | and through `send`, the wire, and the message parser |
| Sasl.RunHonest | ircc/sasl/init.lua:140-150 | in every run a good outcome means that no resume has failed and no abort was sent |
| Sasl.RunAnswers | ircc/sasl/init.lua:140-149 | in every run what was sent is determined by the mechanism and the payloads: to each payload in order its reply, when it has one, whether it goes on or ends with it, or an abort when it fails or is over |
| Sasl.TaskOutcome | ircc/sasl/init.lua:125-170 | how every run ends: the first message not accepted raises for bad base64 and otherwise decides; payloads and answers up to there |
| Sasl.TaskSucceedsIff | ircc/sasl/init.lua:125-170 | the task returns true if and only if 903 came after exactly one complete, error-free run of the mechanism |
| Socks5.SocksImplementation.Start | mysocks5/include/socks5.hpp:266-295 | the length checks in order, then the greeting with the one wanted method |
| Socks5.GreetingReadBack | mysocks5/include/socks5.hpp:287-294 | a reader following section 3 of RFC 1928 finds in the first write of every run whose names fit exactly the one wanted method |
| Socks5.SocksImplementation.Next | mysocks5/include/socks5.hpp:299-447 | every reply-handling step, against the step function |
| Socks5.SocksImplementation.SendConnect | mysocks5/include/socks5.hpp:374-390 | the request bytes |
| Socks5.SocksImplementation.SendUsernamePassword | mysocks5/include/socks5.hpp:333-348 | the credential bytes |
| Socks5.SocksImplementation.PushHost | mysocks5/include/socks5.hpp:216-240 | every form of host is written behind a length octet |
| Socks5.SocksImplementation.Drive | mysocks5/include/socks5.hpp:161-191 | the machine run by its completions against any server is the run function |
| Socks5.RunIsProper | mysocks5/include/socks5.hpp:161-199 | against any server and I/O errors: completes once, at the end; never a protocol failure with value zero; credentials only after method 2 was wanted and selected; CONNECT only after the wanted method, and authentication when wanted, was accepted |
| Socks5.StepArrives | mysocks5/include/socks5.hpp:299-447 | each step of the machine is where its history says |
| Socks5.ReadsExactly | mysocks5/include/socks5.hpp:254-262 | what was taken from the stream is what the reads took, a failing last one included, whatever the outcome |
| Socks5.SuccessReadsExactly | mysocks5/include/socks5.hpp:394-447 | on success exactly the messages of the server have been read and no byte more, and the result is the address and port in the last one |
| Socks5.RunSucceedsIff | mysocks5/include/socks5.hpp:161-447 | success if and only if the names fit, no operation fails and the stream begins with the accepting messages |
| Socks5.RunEndsWith | mysocks5/include/socks5.hpp:265-447 | the result of every run, read off the connection constants and the bytes of the server: which error code, or which address and port; or an I/O error when an operation fails |
| Socks5.CredentialsReadBackIff | mysocks5/include/socks5.hpp:333-348 | a reader following section 2 of RFC 1929 recovers the credentials if and only if both are non-empty and fit their length octets |
| Socks5.RequestReadBackIff | mysocks5/include/socks5.hpp:216-246 | a reader following section 4 of RFC 1928 recovers host and port if and only if the host is a name that fits: a length octet precedes IP addresses too |
| Socks5.AddressRequestIs | mysocks5/include/socks5.hpp:223-238 | the bytes of a request for an address |
| Membership.NextIsOk | ircc/handlers/irc.lua:233-289 | unique nicks, and members being online, survive everything the server does |
| Membership.FoldSameIff | client/applib.cpp:171-206 | names have the same key exactly when they differ in nothing but case: the letters and the four pairs of special characters; folding twice is folding once |
| Membership.ReceiveTracks | ircc/handlers/irc.lua:558-627 | every message, heard or not, keeps the member tables in step with the server |
| Membership.RunTracks | ircc/handlers/irc.lua:558-627 | in every run: exactly our channels, only members, and all of them once NAMES has finished |
| Membership.Irc.GetUser | ircc/components/Irc.lua:178-186 | the object filed under the folded nick, made when missing |
| Membership.Irc.Join | ircc/handlers/irc.lua:558-568 | our own join opens an empty channel; any join files the member; raises exactly for a stranger in a channel we are not in |
| Membership.OwnJoinResets | ircc/handlers/irc.lua:561-563 | our own join starts the channel anew |
| Membership.Irc.NamReply | ircc/handlers/irc.lua:571-587 | files every listed nick in one channel |
| Membership.Irc.Leave | ircc/handlers/irc.lua:589-627 | PART and KICK: our own leaving drops the channel, another one drops one entry |
| Membership.Irc.Quit | ircc/handlers/irc.lua:600-616 | removes the user everywhere |
| Membership.Irc.Nick | ircc/handlers/irc.lua:233-278 | renames the shared user object in place and refiles it and every member entry under the new key, keeping entries and users in agreement |
| Membership.Irc.RefileAll | ircc/handlers/irc.lua:263-273 | the loop over the channels moves exactly the entries under the old key |
| Membership.Irc.Collect | ircc/components/Irc.lua:26-31 | an unreferenced user may vanish from the weak table at any time without effect on the channels |
| Membership.Irc.Deliver | ircc/handlers/irc.lua:558-627 | each event handed to its handler has the effect on the tables that the reference gives it, and none raises |
| Membership.Irc.Follow | ircc/handlers/irc.lua:558-627 | a whole run of the handlers with collections in between: folded member keys equal the members, each entry is the user under the same key, and that user folds to the key; no handler raises |
| OrderedMaps.OrderedMap.Insert | ircc/components/OrderedMap.lua:5-28 | the log grows by the entry; ring, index and ticker follow |
| OrderedMaps.OrderedMap.Lookup | ircc/components/OrderedMap.lua:30-32 | without rekey: the value of the newest retained entry for the folded key, or nothing; with it, a retained one or nothing |
| OrderedMaps.OrderedMap.Rekey | ircc/components/OrderedMap.lua:34-41 | rewrites the key of the one entry the old key led to; nothing when there is none |
| OrderedMaps.OrderedMap.GetOldest | ircc/components/OrderedMap.lua:43-49 | the last value that `each` yields, or nothing |
| OrderedMaps.OrderedMap.Each | ircc/components/OrderedMap.lua:51-65 | the last min(n, max) entries, newest first, after the offset; for a negative offset, the walk of the slots up to an empty one |
| OrderedMaps.WalkWraps | ircc/components/OrderedMap.lua:56-61 | a negative offset repeats the oldest entries in front when the ring is full |
| OrderedMaps.WalkStops | ircc/components/OrderedMap.lua:56-61 | and yields nothing at an empty slot |
| OrderedMaps.OrderedMap.RevEach | ircc/components/OrderedMap.lua:67-81 | the same entries, oldest first |
| OrderedMaps.OrderedMap.Reset | ircc/components/OrderedMap.lua:112-119 | forgets every entry |
| OrderedMaps.OrderedMap.BothWays | ircc/components/OrderedMap.lua:51-81 | the two iterators yield the same entries in exactly opposite orders |
| OrderedMaps.RingInsert | ircc/components/OrderedMap.lua:5-22 | writing slot n mod max keeps the ring the last max inserts |
| OrderedMaps.SoundInsert | ircc/components/OrderedMap.lua:11-19 | every index entry still names a live slot whose folded key is that entry |
| OrderedMaps.NewestInsertAt | ircc/components/OrderedMap.lua:11-19 | and the newest one for its key |
| OrderedMaps.RingRekey | ircc/components/OrderedMap.lua:34-41 | rekeying changes the key of one live entry and leaves the ring a ring |
| OrderedMaps.RekeyLosesOlder | ircc/components/OrderedMap.lua:34-41 | where it does not: the second of two entries under one key is rekeyed and the first is unreachable |
| OrderedMaps.RekeyKeepsNewestIff | ircc/components/OrderedMap.lua:34-41 | "newest retained entry" survives a rekey if and only if the entry was the only one under its old key and no newer one is under the new key |
| RotatingWindow.Draw | ircc/utils/drawing.lua:40-74 | for every scroll, pin and size, each row of the window is the entry, or divider, that its place in the visible list says, and no other row exists; pin and predicate are stored as scrolling demands |
| RotatingWindow.Fill | ircc/utils/drawing.lua:63-72 | the loop places visible entries from the divider back and saves one row |
| RotatingWindow.RowPlace | ircc/utils/drawing.lua:66-72 | rows and places correspond one to one, for a divider of any sign |
| RotatingWindow.PlaceMoves | ircc/utils/drawing.lua:66-72 | one tick moves each place one on, in the same row |
| RotatingWindow.VisibleAfterInsert | ircc/components/OrderedMap.lua:5-28 | one insert puts the entry first if it passes and drops exactly the evicted entry if that passed |
| RotatingWindow.InsertKeepsRows | ircc/utils/drawing.lua:40-74 | not scrolled, a visible insert appears on the old divider row, the divider moves one row on, and every other row is unchanged, except that the row of an evicted entry, and no other, goes blank |
| RotatingWindow.HiddenInsertKeepsRows | ircc/utils/drawing.lua:40-74 | an insert that fails the predicate moves nothing and blanks only the row of the entry it evicts |
| RotatingWindow.DrawInsertDraw | ircc/utils/drawing.lua:40-74 | the same for two drawings of the live store with an insert between them |
| RotatingWindow.ScrolledRowsStay | ircc/utils/drawing.lua:50-54 | scrolled without a predicate, any number of inserts leaves each row the same, and blanks exactly those whose entry the store no longer holds |
| RotatingWindow.ScrolledLayout | ircc/utils/drawing.lua:46-54 | scrolled, the divider is at the bottom and the entries above it, the newest lowest |
| RotatingWindow.ScrolledDraw | ircc/utils/drawing.lua:46-54 | the first scrolled drawing leaves out as many of the newest entries as are scrolled |
| RotatingWindow.ScrolledDrawsAgree | ircc/utils/drawing.lua:40-74 | the same for two drawings with any inserts between them: the pin moves the offset with the ticker |
| RotatingWindow.DrawInsertsDraw | ircc/utils/drawing.lua:40-74 | with any predicate: the rows stand still when no entry in the gap left by hidden inserts passes |
| RotatingWindow.ScrolledView | ircc/utils/drawing.lua:50-54 | what a scrolled, filtered view shows after any inserts: the visible part of that gap, then the survivors of the old view |
| RotatingWindow.ScrolledViewStaysIff | ircc/utils/drawing.lua:50-54 | so it stays, up to evictions, if and only if no entry in the gap passes |
| RotatingWindow.NoGap | ircc/utils/drawing.lua:50-54 | which is so when every insert passes, and always without a predicate |
| RotatingWindow.FilteredViewMoves | ircc/utils/drawing.lua:50-54 | where it does not stay: one hidden insert brings a scrolled-past entry back |
| RotatingWindow.NegativeOffsetMoves | ircc/utils/drawing.lua:50-54 | nor does it with a pin too far above the ticker, whatever was shown |
| Editors.Editor.SearchNextWord | ircc/components/Editor.lua:294-306 | the end of the word that ends next after the cursor, or the end of the buffer |
| Editors.Editor.SearchPrevWord | ircc/components/Editor.lua:308-322 | the start of the word that starts last before the cursor, or the beginning |
| Editors.Editor.KillToBeg | ircc/components/Editor.lua:133-137 | cuts everything before the cursor into the yank, in front of what a kill run has collected |
| Editors.Editor.KillToEnd | ircc/components/Editor.lua:139-148 | cuts everything from the cursor on, behind it |
| Editors.Editor.KillPrevWord | ircc/components/Editor.lua:150-157 | cuts back to the start of the previous word |
| Editors.Editor.KillNextWord | ircc/components/Editor.lua:160-176 | cuts to the end of the next word |
| Editors.Editor.Kill | ircc/components/Editor.lua:123-176 | whichever command: the yank put back at the cursor is the buffer before |
| Editors.Editor.KillRun | ircc/components/Editor.lua:123-176 | after any non-empty run of kills from a non-kill state the buffer has lost one contiguous span at the cursor and the yank is that span |
| Editors.Editor.KillRunThenPaste | ircc/components/Editor.lua:324-327 | so one paste restores the buffer |
| Editors.CutBefore | ircc/components/Editor.lua:150-157 | cutting back to a position and putting the cut in front of the yank leaves the filled buffer the same |
| Editors.CutAfter | ircc/components/Editor.lua:139-148 | likewise for a cut behind the cursor |
| Editors.Editor.Paste | ircc/components/Editor.lua:324-327 | puts the yank in at the cursor and ends the kill run |
| Editors.Editor.Confirm | ircc/components/Editor.lua:46-52 | the buffer object itself goes into the history and a new one takes its place, so that later typing cannot reach it |
| Editors.Editor.Add | ircc/components/Editor.lua:178-181 | typing changes the live buffer in place and no history entry or stash |
| Editors.Editor.OlderHistory | ircc/components/Editor.lua:54-76 | moves back one entry, storing the edited line; no table ends up with two owners |
| Editors.Editor.NewerHistory | ircc/components/Editor.lua:78-103 | moves forward one entry or back to the stashed line |
| EditorHistory.OneThere | ircc/components/Editor.lua:54-103 | one step older, one newer |
| EditorHistory.ThereAndBack | ircc/components/Editor.lua:54-103 | k steps older then k newer restore buffer, place and entries, an edited entry counting as edited |
| EditorHistory.ThereAndBackFromInput | ircc/components/Editor.lua:54-103 | from the input line nothing changes at all |
| EditorHistory.BackAndThere | ircc/components/Editor.lua:54-103 | k steps newer then k older restore everything as well, an edited entry counting as edited; the last step newer may be the one to the input line |
| EditorHistory.NewerIs | ircc/components/Editor.lua:78-103 | a step newer stores an edited line in its entry, drops exactly the entry of an emptied one, and looks at what follows |
| EditorHistory.OlderIs | ircc/components/Editor.lua:54-68 | a step older does the same with the line and looks at the entry before |
| EditorHistory.FromInput | ircc/components/Editor.lua:69-85 | the steps from the input line |
| Editors.Editor.BackAndForth | ircc/components/Editor.lua:54-103 | the same for the editor object |
| Editors.Editor.ForthAndBack | ircc/components/Editor.lua:54-103 | newer and older again for the editor object |
| Editors.Editor.Tab | ircc/components/Editor.lua:329-356 | replaces exactly the word before the cursor by the chosen completion; an absent list changes nothing |
| Editors.Editor.TabRun | ircc/components/Editor.lua:329-356 | cycling in any directions, however often, changes only the completed word |
| FilterLanguage.AtomSound | dashboard/utils/matchdsl.lua:69-105 | what the parser consumed are the tokens of the tree it found |
| FilterLanguage.DisjunctComplete | dashboard/utils/matchdsl.lua:69-127 | the tokens of any tree, in front of a rest that cannot continue it, parse to that tree and that rest |
| FilterLanguage.Accepts | dashboard/utils/matchdsl.lua:129-135 | a token list is accepted iff it is the tokens of some tree, and the tree is unique |
| FilterLanguage.FieldTests | dashboard/utils/matchdsl.lua:138-151 | exactly the twelve listed words can be tested |
| FilterLanguage.Parser.Atom | dashboard/utils/matchdsl.lua:69-105 | consumes what the tree parser does and builds a predicate with the meaning of its tree; fails exactly when it does |
| FilterLanguage.Parser.Conjunct | dashboard/utils/matchdsl.lua:107-116 | the same for `and` |
| FilterLanguage.Parser.Disjunct | dashboard/utils/matchdsl.lua:118-127 | the same for `or` |
| FilterLanguage.Compile | dashboard/utils/matchdsl.lua:129-135 | for every token list: a predicate comes out exactly when the list is in the grammar, and it has the boolean meaning of the expression |
| FilterLanguage.TreesOf | dashboard/utils/matchdsl.lua:69-127 | printing with precedence-based parentheses gives the tokens of a tree |
| FilterLanguage.TreesMean | dashboard/utils/matchdsl.lua:69-127 | with the same meaning, though operators lean to the right |
| FilterLanguage.PrintThenCompile | dashboard/utils/matchdsl.lua:69-135 | so printing any expression and compiling it gives an equivalent predicate |
| CapNegotiation.SendReqs | ircc/utils/cap_negotiation.lua:11-27 | for every list of names: succeeds if and only if no name has NUL, CR or LF, none is over 502 bytes, and one of exactly 502 is not first and needs no colon; then the lines carry non-empty groups whose concatenation is the request in order, each at most 512 bytes and too full for the next name |
| CapNegotiation.ReqLineIs | ircc/utils/cap_negotiation.lua:19-25 | the line as it goes out |
| CapNegotiation.ReqLineLength | ircc/utils/cap_negotiation.lua:15-18 | the line is nine bytes, the running size, and a colon unless it is one plain word |
| CapNegotiation.GroupFits | ircc/utils/cap_negotiation.lua:17-22 | `send` accepts a group that the loop sends exactly when each of its names fits where it stands |
| CapNegotiation.WaitForAck | ircc/utils/cap_negotiation.lua:29-49 | returns at the first message after which every requested name has been named in an ACK or NAK, and not before; raises exactly on an answer without its list |
| CapNegotiation.EnabledIff | ircc/utils/cap_negotiation.lua:37-40 | a capability is enabled iff its last acknowledgement had no dash, or it was enabled and none came |
| CapNegotiation.AckedWordIs | ircc/utils/cap_negotiation.lua:37-40 | a name acknowledged is enabled, with a dash before it disabled; a lone dash is a name |
| CapNegotiation.AnswersAre | ircc/utils/cap_negotiation.lua:33-42 | the second argument says what a message is, the third lists the names; an answer without a list is one that raises |
| CapNegotiation.SpaceSkipped | ircc/utils/cap_negotiation.lua:37-44 | spaces before a word do not matter |
| CapNegotiation.FirstWordOff | ircc/utils/cap_negotiation.lua:37-44 | a word ends at the first space |
| CapNegotiation.WordsJoined | ircc/utils/cap_negotiation.lua:37-44 | the words of a request line are its names |
| CapNegotiation.EchoesAnswer | ircc/utils/cap_negotiation.lua:11-49 | once each line sent is acknowledged the wait is over |
| MaskTrackers.MaskedEqualIff | dashboard/components/MaskTracker.lua:10-15 | bytes are equal under the tail mask iff their high bits are |
| MaskTrackers.TestsDecide | dashboard/components/MaskTracker.lua:20-25 | the byte prefix and the masked tail byte together decide equality of the first `prefix` bits |
| MaskTrackers.MaskTracker.constructor | dashboard/components/MaskTracker.lua:6-18 | the stored fields are those of the network and prefix, for every prefix that does not raise |
| MaskTrackers.MaskTracker.Match | dashboard/components/MaskTracker.lua:20-25 | true exactly for addresses of the length of the network that agree on its first `prefix` bits |
| NetTrackers.NetTracker.Track | dashboard/components/NetTracker.lua:12-14 | a fresh zero counter under the label, the total losing what the old one had; nothing changes where the mask constructor raises |
| NetTrackers.NetTracker.Set | dashboard/components/NetTracker.lua:16-21 | overwrites the counter of a known label only |
| NetTrackers.NetTracker.Delta | dashboard/components/NetTracker.lua:23-30 | in any iteration order one covering network is charged, or none when no network covers the address |
| NetTrackers.NetTracker.Count | dashboard/components/NetTracker.lua:32-38 | the sum of the counters, in any iteration order |
| NetTrackers.SumFrom | dashboard/components/NetTracker.lua:32-38 | a sum over labels may start with any label |
| NetTrackers.NetTracker.Watch | dashboard/components/NetTracker.lua:23-38 | over any run with fixed masks the total changes by the sum over the addresses in the union of the networks, each counted once |

## Left out

- Sockets, TLS, name resolution, timers and coroutine scheduling: completions are arbitrary steps.
- `parse_irc_message` of a null pointer, which is never passed one in the session loop.
- The copies of sent messages that `send` puts into the message buffers, and its error when there is no connection.
- Mechanism selection, password resolution and the cryptography of SASL mechanisms: a mechanism is any coroutine.
- Membership.Irc.NamReply: takes the list of nicks; splitting the reply text, prefix modes and the dropped `@` are not modelled.
- Membership.Irc.Nick: leaves out chat buffers, monitoring, `recover_nick` and the talk target.
- Membership.Receive: ends with our own QUIT, which ends the session.
- Session.SessionThread: the callback that receives each message is not modelled, so neither is its redraw flag.
- Editors.Editor.Confirm: whether the line repeats the last entry is an arbitrary yes or no.
- Editors.Editor.Tab: the completion list is given as code points; UTF-8 conversion and rendering are not modelled, and a list has to be non-empty with a position inside it.
- The other editing commands (`swap`, `backspace`, `delete`, cursor moves) and `hexinput`: they add only easy members.
- FilterLanguage.Compile: starts from tokens; the lexer and the regular expression engine are parameters.
- The `CAP LS` conversation and the SASL attempts after negotiation.
- Parsing `address/prefix` text and the address parser: `NetTracker` starts from address bytes and a prefix number.
- Lua garbage collection, except that an unreferenced user may vanish.
- The HTTP server, bindings to libraries, drawing and key maps.
- The dashboard's own copies of the editor, message store, window, SASL and `send`.
