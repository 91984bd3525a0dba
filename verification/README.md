# Verified model of the home-automation agents

Six parts of the agents, modelled in Dafny and proved.  Each part is given twice: as the class or
method that changes state step by step like the C++ code does, and as functions on values that say
what a step does.  Every method is proved to do exactly what its function says; the properties of
whole runs are lemmas about the functions, so they hold of the objects.

`dafny verify dfyconfig.toml` checks the whole project.

| part | files | main results |
|---|---|---|
| WebSocket framing | `Frames`, `Session`, `WireDiscipline`, `WebSocket`, `WireFormat`, `Conversation` | the bytes of every frame, frame and message round trip, chunking does not matter, fragment reassembly, outgoing stream discipline, messages in order between two endpoints, and all of them in the end |
| expression compiler | `Tokenizer`, `Compiler`, `MathExpression`, `Operators`, `Spacing`, `LastParenthesis` | the arithmetic of every operator, tokenizer round trip, compilation preserves the value of the tree, exactly which spacings compile and what the others evaluate to |
| Gray-code automaton | `GrayCode`, `GrayBits`, `NetDevice`, `ControlText` | the in-place construction gives the Gray code, in closed form; the control text reads back as a successor table that is one cycle of all states |
| load scheduler | `LoadControl`, `Scheduler`, `SchedulerLaws`, `ClosedLoop`, `Lockout` | closed-loop safety and a bound on commands, the exact headroom, shedding order and reach, exactly who is commanded, the configured latency as lockout |
| counters and rules | `LeakyCounter`, `DelayQueue`, `EventCounter`, `QueuedCounter`, `TimedRule`, `RuleLaws` | closed form of the leaky counter, with and without a queue, queue discipline, exactly when a rule is on and when it acts, alternation, a set for every cycle boundary |
| device state machines | `Timer`, `BinaryOutput`, `AutoOff`, `EarlyOff`, `OutputPort`, `StateMachine`, `TriStateOutput`, `RelayDirection`, `FreshName` | auto-off bound at the port and the exact moment of auto-off, faithful compilation, relay interlock and direction, fresh names |

The WebSocket frame format is that of RFC 6455, sections 5.2 to 5.5.  `Texts` and `Options` hold what several
parts share.

## Where the code does not do what one would expect

The model follows the code.  Each of these is a theorem here, with the exact condition where there is one.

* Joining tokens with spaces and cutting the text again loses nothing but possibly the last token: a
  final `)` gains an empty token before it and a final operator ending in a delimiter is shortened
  (`TokenizerRoundTrip`, `FinalParenthesisGainsToken`).  So the text of an expression compiles to its
  postorder exactly when it does not end in a closing parenthesis (`TextCompiles`).
* With other spaces, or none, the text of an expression compiles to its postorder exactly when it does
  not end in a `)` with no operand right before it, and no comparison or logical operator follows an
  operand, with no space between, while a two-character operator came before with no space since
  (`SpacedCompiles`, `MergesMeans`).  So `a*(b+c)` compiles and `a<=b&&c` does not
  (`LogicalOperatorMerges`).  A text that only ends in such a `)` still evaluates: to its expression
  with the operands at the end moved up by one and the value of the empty name in the last place
  (`EvaluateSpaced`); `( a )` is the value of the empty name (`ParenthesizedNameIsLost`).
* `&&` and `||` are on one lowest level and associate to the right; all other operators, `^` too,
  associate to the left (`YieldsByLevel`).
* A control that may be started never takes the power over the target exactly when its estimate is at
  least nine tenths of its load, or it draws nothing; below that some target is overrun by one
  measurement (`HeadroomNeeded`).
* How often an event counter is polled changes its reading exactly when both its increment and its
  decrement are negative (`PollingDoesNotMatter`, `PollingMatters`).
* A poll that delivers a queued message does not let the counter leak for the time since the last
  poll: it reads too much by the smaller of the counter and that leak (`DeliverySkipsDecay`), so with
  rates that are not negative it is right exactly when nothing leaked or nothing was there to leak
  (`DeliveryRight`, for any rates and any counter).  Over a whole run the counter is that of a clock
  which stands still before every delivering poll (`QueuedClosedForm`).
* Given a condition set, a timed rule that lists one enabling condition twice never sets anything
  (`DoubledNeverSets`); without a condition set the listing is not looked at (`DoubledUnchecked`).
* An output switches itself off only if the timer key finds it again: its name must have at least two
  characters and no `$` (`AddresseeOfKey`), and not be `end` (`GovernedByName`); otherwise, once on, it
  stays on for good (`NeverBack`).
* An output can go off early.  A command back to the default does not stop the timer but adds a "reset"
  entry, which counts down and ends in a turn-off of its own.  Switched on, off and, after half its
  duration, on again, every output that switches itself off at all is off after the other half
  (`EndsEarly`).  In general it goes off exactly with the first entry that addresses it (`WhenBack`),
  and it stays on for its full duration exactly when no such entry is due sooner (`NotEarly`).
* A command of several values does not take effect as asked exactly when it begins with `+` and is not
  nothing but `+`: the joined status loses the empty parts in front and the others move up
  (`CommandExact`).  Told ` ON`, a device in state OFF+OFF ends up ON+ON (`EmptyPartShifts`).
* The event an output sends when its wait ends tells the timer's key instead of the new value; it tells
  the value exactly when the default is spelled like the key (`EventsTell`).
* The two relays of a tri-state output exclude each other only if the default state is not one that is
  remapped to the word for ON (`InterlockBreaks`).
* A device state machine takes no notice of the state its file marks with `start`, because that flag
  is read from the attribute `name`: it starts in the last state named TRUE, or else in the first
  (`StartIndex`).  It starts in the marked state exactly when no later state is named TRUE and the marked
  one is itself named TRUE or is the first (`StartsAtMark`, `MarkIgnored`).

## Model

| member | source | states |
|---|---|---|
| Frames.BigEndianRoundTrip | agents/WSServerWS/easywsclient.cpp:381-401 | a length written into 2 or 8 bytes, high byte first, reads back as the same length |
| Frames.XorTwice | agents/WSServerWS/easywsclient.cpp:412-417 | masking with the same key twice gives the payload back, whatever its length |
| Frames.EncodedHeader | agents/WSServerWS/easywsclient.cpp:268-311 | the header read from an encoded frame has that frame's final flag, opcode, length and key, in all three length forms, masked or not |
| Frames.NextOfEncoded | agents/WSServerWS/easywsclient.cpp:265-340 | an encoded frame in front of any bytes is recognised whole and takes exactly its own bytes off the buffer |
| Frames.DecodeEncodeAll | agents/WSServerWS/easywsclient.cpp:265-340 | every list of frames, each masked or not, of any size, decodes to exactly that list with no byte left |
| Frames.DecodeAppend | agents/WSServerWS/easywsclient.cpp:265-340 | decoding a stream in two instalments, with the undecoded rest kept between, finds the same frames and the same rest as at once |
| Frames.DecodeExtended | agents/WSServerWS/easywsclient.cpp:409-411 | queueing one more frame behind whole frames adds exactly that frame to what the peer decodes |
| Frames.NoWrapSplits | agents/WSServerWS/easywsclient.cpp:312 | if no header of a stream announces a size that wraps in 64 bits, none does in any instalment of it |
| Session.DrainHandlesFrames | agents/WSServerWS/easywsclient.cpp:265-340 | one dispatch handles exactly the whole frames in the buffer, in order, and keeps the rest |
| Session.AskKeeps | agents/WSServerWS/easywsclient.cpp:324-325 | what the application asks for from its callback touches only the ready state and what is queued, so it does not matter that the buffers are cut after the call |
| Session.FeedTwice | agents/WSServerWS/easywsclient.cpp:265-340 | dispatching after a first and again after a second piece leaves the same state as after both |
| Session.ChunkingDoesNotMatter | agents/WSServerWS/easywsclient.cpp:265-340 | for every byte stream, every way to cut it and every application that sends or closes from its callback, callbacks, replies, fragment under assembly, ready state and leftover bytes are those of feeding it whole |
| Session.SplittingsAgree | agents/WSServerWS/easywsclient.cpp:265-340 | two ways to cut one stream leave the same state |
| Session.HandleAllDelivers | agents/WSServerWS/easywsclient.cpp:316-328 | over any frames the callbacks are the messages completed by final data frames, and the unfinished fragment is kept |
| Session.MessagesAppend | agents/WSServerWS/easywsclient.cpp:316-328 | the messages of a stream cut in two are those of the first part, then those of the second with the open fragment carried over |
| Session.HandleAllReplies | agents/WSServerWS/easywsclient.cpp:329-336 | with an application that only listens, an open endpoint queues one pong a ping until the first frame that is no data, ping or pong, which gets the close frame; a closing or closed one queues nothing |
| Session.FeedFrames | agents/WSServerWS/easywsclient.cpp:265-340 | the effect of receiving any list of frames: callbacks, fragment and empty buffer whatever the application does, replies and ready state if it only listens |
| Session.MessagesArrive | agents/WSServerWS/easywsclient.cpp:347-418 | what one endpoint sends as text or binary, masked or not, any number and any length, the other delivers as exactly those payloads in order |
| Session.FragmentsJoin | agents/WSServerWS/easywsclient.cpp:316-328 | data frames of which only the last is final, with pings and pongs between, make one message: the payloads joined |
| Session.PingsAnswered | agents/WSServerWS/easywsclient.cpp:329-334 | among data, pings and pongs the replies are one pong a ping, same payload, same order |
| Session.FragmentsArrive | agents/WSServerWS/easywsclient.cpp:314-338 | a fragmented message with pings and pongs between, arriving in any pieces, gives exactly one callback and leaves nothing behind; if the application only listens, one pong a ping in order and nothing else is queued |
| WireDiscipline.NextIsValid | agents/WSServerWS/easywsclient.cpp:268-312 | every frame recognised in any bytes has a four-bit opcode and a length below 2^64 |
| WireDiscipline.DrainDisciplined | agents/WSServerWS/easywsclient.cpp:314-338 | a dispatch of any input keeps the outgoing stream one of whole frames with the close frame last, and adds nothing once closing |
| WireDiscipline.ReceiveMoves | agents/WSServerWS/easywsclient.cpp:201-222 | receiving appends exactly the bytes of the results before the first that is none, and closes exactly if that one is the end |
| WireDiscipline.TransmitMoves | agents/WSServerWS/easywsclient.cpp:223-238 | sending moves exactly as many bytes as the socket takes, in order, from the queue to what is sent, and closes exactly if the connection ends with bytes left |
| WireDiscipline.PollMoves | agents/WSServerWS/easywsclient.cpp:183-243 | one poll in full: bytes received, bytes sent, and exactly when the connection is closed after it |
| WireDiscipline.PollEmpties | agents/WSServerWS/easywsclient.cpp:223-242 | as many accepted sends as there are bytes queued empty the queue, and finish a close |
| WireDiscipline.PollDisciplined | agents/WSServerWS/easywsclient.cpp:201-242 | partial sends, would-block, a lost connection and the end of a close move bytes from queued to sent and change none of them |
| WireDiscipline.RunDisciplined | agents/WSServerWS/easywsclient.cpp:183-426 | every run of sends, pings, closes, dispatches with an application that makes requests of its own, and polls keeps the discipline and only extends the stream |
| WireDiscipline.OutgoingStreamDiscipline | agents/WSServerWS/easywsclient.cpp:359-426 | in every run from a new connection, requests from callbacks included, sent plus queued bytes are whole frames, only the last can be a close frame, their messages are those accepted for sending in order, and the peer decodes a prefix of them |
| WireDiscipline.NothingAfterClose | agents/WSServerWS/easywsclient.cpp:420-426 | once the close frame is queued or the connection is gone, no continuation of the run changes the stream |
| Conversation.ConsumedIsWhole | agents/WSServerWS/easywsclient.cpp:265-340 | a byte stream is its whole frames followed by its leftover, and those frames alone decode to the same list |
| Conversation.SenderSteps | agents/WSServerWS/easywsclient.cpp:359-426 | whatever one endpoint does next, what its peer has received stays explained by what it sent |
| Conversation.ReceiverSteps | agents/WSServerWS/easywsclient.cpp:183-340 | requests, dispatches and polls in any portions keep the receiver's callbacks and open fragment those of the bytes it took |
| Conversation.LinkedDelivers | agents/WSServerWS/easywsclient.cpp:265-418 | such a receiver has a prefix of the messages accepted by the sender, and all of them once everything queued was taken and dispatched |
| Conversation.MessagesInOrder | agents/WSServerWS/easywsclient.cpp:183-426 | over every interleaving of requests, dispatches and partial polls at two endpoints, closes and requests from callbacks included, each application is given a prefix of what the other accepted for sending, in order, and in the end all of it |
| Conversation.EverythingArrives | agents/WSServerWS/easywsclient.cpp:183-426 | from every state of a conversation with both ends connected, sockets that take and give everything and one dispatch bring the right application exactly the messages the left end accepted |
| WebSocket.RealWebSocket.constructor | agents/WSServerWS/easywsclient.cpp:176-177 | a new connection is open, with empty buffers |
| WebSocket.RealWebSocket.BuildHeader | agents/WSServerWS/easywsclient.cpp:368-408 | the bytes assembled by shifts are flag and opcode, the length in its shortest form and the key |
| WebSocket.RealWebSocket.MaskTail | agents/WSServerWS/easywsclient.cpp:412-417 | the loop masks exactly the last bytes of the transmit buffer |
| WebSocket.RealWebSocket.SendData | agents/WSServerWS/easywsclient.cpp:359-418 | the transmit buffer grows by one encoded frame, unless closing or closed |
| WebSocket.RealWebSocket.Close | agents/WSServerWS/easywsclient.cpp:420-426 | the first close queues one close frame masked with a zero key; later ones do nothing |
| WebSocket.RealWebSocket.Perform | agents/WSServerWS/easywsclient.cpp:342-357 | a message, a ping or a close goes out as the one frame it stands for |
| WebSocket.RealWebSocket.Deliver | agents/WSServerWS/easywsclient.cpp:324 | the callback gets the message and its requests are carried out at once, while the receive buffers stay as they are |
| WebSocket.CallbackFirst | agents/WSServerWS/easywsclient.cpp:321-327 | calling the application before the buffers are cut leaves what calling it afterwards leaves |
| WebSocket.RealWebSocket.PeekHeader | agents/WSServerWS/easywsclient.cpp:268-311 | the header parsed by shifts and masks is the one at the front of the buffer, or none if it is incomplete |
| WebSocket.RealWebSocket.PeekLength | agents/WSServerWS/easywsclient.cpp:277-299 | the length assembled byte by byte is the big-endian number in the buffer, and the index stands after it |
| WireFormat.FirstBytes | agents/WSServerWS/easywsclient.cpp:370-393 | the first two bytes of a frame: final flag and opcode, mask flag and length or 126 or 127 |
| WireFormat.LengthField | agents/WSServerWS/easywsclient.cpp:381-401 | the two or eight bytes after them are the payload's length, high byte first |
| WireFormat.PayloadField | agents/WSServerWS/easywsclient.cpp:410-417 | then the key and the payload byte by byte under it, or the payload as it is, and nothing more |
| WireFormat.RequestsQueued | agents/WSServerWS/easywsclient.cpp:342-426 | what an open endpoint is asked for is queued in order up to the first close: opcode 1 for text, 2 for binary, 9 for a ping, the fixed key 12 34 56 78 if it masks, and six fixed bytes for a close |
| WireFormat.OpcodeMeaning | agents/WSServerWS/easywsclient.cpp:314-338 | opcodes 0, 1 and 2 carry data, 9 is answered by 10 with the same payload, 10 does nothing, any other makes an open endpoint close |
| WebSocket.NextByHeader | agents/WSServerWS/easywsclient.cpp:312 | without wrap-around, the size test in 64-bit arithmetic is passed exactly when a whole frame is in the buffer |
| WebSocket.RealWebSocket.Unmask | agents/WSServerWS/easywsclient.cpp:321-330 | the loop unmasks exactly the payload inside the receive buffer |
| WebSocket.RealWebSocket.DispatchOne | agents/WSServerWS/easywsclient.cpp:314-338 | one frame is handled by its opcode and erased, and the bytes behind it are untouched |
| WebSocket.RealWebSocket.DispatchBinary | agents/WSServerWS/easywsclient.cpp:265-340 | the loop ends and leaves the state that handling all whole frames leaves |
| WebSocket.RealWebSocket.PollOnce | agents/WSServerWS/easywsclient.cpp:183-243 | one poll receives, sends and finishes a close as the socket's answers dictate |
| WebSocket.RealWebSocket.ReceiveLoop | agents/WSServerWS/easywsclient.cpp:201-222 | received bytes are appended until the socket would block or ends |
| WebSocket.RealWebSocket.SendLoop | agents/WSServerWS/easywsclient.cpp:223-238 | accepted bytes leave the front of the transmit buffer until it is empty or the socket stops |
| WebSocket.FeedPieces | agents/WSServerWS/easywsclient.cpp:265-340 | the object fed in any pieces with a dispatch after each ends as if fed the whole stream |
| Tokenizer.ScanToken | agents/PwrControl/mathexpression.cpp:151-190 | any token followed by a space and more text is cut off as that token, whatever was cut before |
| Tokenizer.ScanJoined | agents/PwrControl/mathexpression.cpp:146-202 | any tokens joined by single spaces are cut into the same tokens up to the last |
| Tokenizer.TokenizerRoundTrip | agents/PwrControl/mathexpression.cpp:125-202 | joining and cutting gives the same list exactly when the last token is not `)` and does not end in a delimiter |
| Tokenizer.FinalParenthesisGainsToken | agents/PwrControl/mathexpression.cpp:191-199 | the input `( a )` comes back with an empty token before the parenthesis |
| Compiler.YieldsByLevel | agents/PwrControl/mathexpression.cpp:90-111 | the comparison of operators is that of five levels, left-associative except the lowest, which waits |
| Compiler.TakesExpression | agents/PwrControl/mathexpression.cpp:60-80 | over any stack, the tokens of a tree move exactly its finished part to the output and leave its waiting operators |
| Compiler.TranslatesToPostorder | agents/PwrControl/mathexpression.cpp:56-88 | tokens with the parentheses they need, or more, translate to the tree's postorder with success |
| Compiler.EvaluatesPostorder | agents/PwrControl/mathexpression.cpp:218-250 | evaluating a postorder on any stack pushes exactly the tree's value |
| Compiler.AddParenthesesMeans | agents/PwrControl/mathexpression.cpp:90-111 | putting parentheses exactly where needed keeps value and postorder and changes nothing already bracketed |
| Compiler.CompilerCorrect | agents/PwrControl/mathexpression.cpp:56-250 | every tree, printed with the parentheses it needs, translates to its postorder and evaluates to one value, the tree's own |
| Operators.Arithmetic | agents/PwrControl/mathexpression.cpp:236-241 | the text a op b for the five arithmetic operators, by what undoes them: what is subtracted can be added back, what is divided multiplied back; division by zero is zero |
| Operators.Comparisons | agents/PwrControl/mathexpression.cpp:242-249 | the seven comparisons and logical operators are 1 exactly when they hold and 0 otherwise |
| Operators.MissingIsZero | agents/PwrControl/mathexpression.cpp:231 | a name without a value counts as zero |
| Operators.SumsGroup | agents/PwrControl/mathexpression.cpp:90-111 | a - b - c is x - y - z, a - b + c is x - y + z, and products bind closer than sums on either side |
| Operators.QuotientsGroup | agents/PwrControl/mathexpression.cpp:95-99 | quotients group to the left and bind closer than differences |
| Operators.OtherGroups | agents/PwrControl/mathexpression.cpp:90-111 | powers group to the left and bind closest, comparisons bind less than sums, and of two logical operators the later is applied first |
| Operators.AcceptedWhenClosed | agents/PwrControl/mathexpression.cpp:56-88 | any list of tokens is accepted exactly when no parenthesis stays open |
| MathExpression.TextCompiles | agents/PwrControl/mathexpression.cpp:56-202 | the text of an expression compiles to its postorder exactly when it does not end in a closing parenthesis |
| MathExpression.EmptyTokenGoesOut | agents/PwrControl/mathexpression.cpp:60-87 | an empty token anywhere in the input is always in the output |
| MathExpression.OtherTokenGoesOut | agents/PwrControl/mathexpression.cpp:79 | a token that is neither operator nor parenthesis is always in the output |
| MathExpression.MathExpression.Tokenize | agents/PwrControl/mathexpression.cpp:146-202 | the loop with its look-ahead computes the tokens of the text |
| MathExpression.MathExpression.TakeChar | agents/PwrControl/mathexpression.cpp:152-189 | each character case moves symbol, flag and tokens as one scan step |
| MathExpression.MathExpression.TakeLast | agents/PwrControl/mathexpression.cpp:191-199 | the last character ends the scan as coded, the empty token included |
| MathExpression.MathExpression.Parse | agents/PwrControl/mathexpression.cpp:56-88 | the items grow by the translation of the text, and the result says whether the stack ended empty |
| MathExpression.MathExpression.TakeToken | agents/PwrControl/mathexpression.cpp:61-79 | one token moves strings between stack and items as one translation step |
| MathExpression.MathExpression.PopOut | agents/PwrControl/mathexpression.cpp:82-85 | operators above the last open parenthesis go out, top first |
| MathExpression.MathExpression.Evaluate | agents/PwrControl/mathexpression.cpp:218-234 | the value is the top of the stack the items leave, and looking up names changes no value in the table |
| MathExpression.EvaluateText | agents/PwrControl/mathexpression.cpp:56-234 | parse then evaluate on a new object gives the value of the tree |
| Spacing.ScanUnit | agents/PwrControl/mathexpression.cpp:151-190 | a token and any spaces after it, from any state of the scanner that does not merge: cut off, or pending if it is an operand with no space after it |
| Spacing.ScanSpaced | agents/PwrControl/mathexpression.cpp:146-202 | a text in which nothing merges is cut into its tokens, with an empty one before a lone final parenthesis |
| Spacing.ScanMerged | agents/PwrControl/mathexpression.cpp:171-189 | a text in which something merges has the merged token among its tokens |
| Spacing.SpacedTokens | agents/PwrControl/mathexpression.cpp:146-202 | an expression written with any spaces is cut into its tokens exactly when nothing merges and it does not end in a lone parenthesis |
| Spacing.MergesMeans | agents/PwrControl/mathexpression.cpp:171-186 | something merges exactly at a comparison or logical operator right behind an operand with a two-character operator before it and no space since |
| Spacing.SpacedCompiles | agents/PwrControl/mathexpression.cpp:56-202 | an expression written with any spaces compiles to its postorder exactly when nothing merges and it does not end in a lone parenthesis |
| Spacing.LogicalOperatorMerges | agents/PwrControl/mathexpression.cpp:171-186 | the text a<=b&&c gives the tokens a, <=, b&& and c |
| LastParenthesis.LastValue | agents/PwrControl/mathexpression.cpp:218-250 | the value of an expression is its last operators applied to its last operands, right to left |
| LastParenthesis.TranslatesWithEmpty | agents/PwrControl/mathexpression.cpp:60-87 | with the empty token before its final parenthesis an expression still translates with success: finished operands, the empty token, then the waiting operators |
| LastParenthesis.EvaluatesShifted | agents/PwrControl/mathexpression.cpp:218-234 | evaluating that leaves one operand too many and, on top, the expression's last operators applied to its last operands but the first, and to the value of the empty name |
| LastParenthesis.EvaluateSpaced | agents/PwrControl/mathexpression.cpp:56-234 | parse then evaluate on a new object, for every expression and all spaces under which nothing merges: the tree's value, or the shifted one if the text ends in a lone parenthesis |
| LastParenthesis.ParenthesizedNameIsLost | agents/PwrControl/mathexpression.cpp:193-197 | the shifted value of a name in parentheses is the value of the empty name |
| GrayCode.NeighboursDiffer | agents/NetDevices/Configurator.cpp:333-353 | consecutive vectors differ in exactly one component |
| GrayCode.EndsDiffer | agents/NetDevices/Configurator.cpp:333-353 | the last and the first vector differ in exactly one component |
| GrayCode.VectorsInjective | agents/NetDevices/Configurator.cpp:333-353 | no vector occurs twice |
| GrayCode.EveryVectorOccurs | agents/NetDevices/Configurator.cpp:333-353 | every ON/OFF vector of the length occurs |
| GrayCode.GrayCycle | agents/NetDevices/Configurator.cpp:333-353 | for every length there are 2^n distinct vectors, all of them, cyclic neighbours differing in one component |
| GrayBits.ComponentOn | agents/NetDevices/Configurator.cpp:333-353 | closed form: component k of vector i, out of n, is ON exactly when i shifted right by n - 1 - k places, halved and rounded up, is odd |
| GrayCode.SplitJoin | agents/NetDevices/Device.cpp:90-107 | splitting a joined status gives the parts back, if none is empty or holds a plus sign |
| GrayCode.CodesAreVectors | agents/NetDevices/Configurator.cpp:344-347 | each text code is the joined vector of the same position |
| GrayCode.CodesSplit | agents/NetDevices/Device.cpp:99-107 | each text code splits into the vector of the same position |
| GrayCode.CodesDistinct | agents/NetDevices/Configurator.cpp:349-351 | no text code occurs twice |
| GrayCode.GenerateGrayCode | agents/NetDevices/Configurator.cpp:333-353 | the in-place doubling ends with all 2^n codes in order |
| GrayCode.DoubleInPlace | agents/NetDevices/Configurator.cpp:341-347 | one round turns the code of k components into that of k + 1, in place |
| GrayCode.MirrorHalf | agents/NetDevices/Configurator.cpp:342-343 | the first half appears reversed in the second and is itself unchanged |
| GrayCode.PrefixRange | agents/NetDevices/Configurator.cpp:344-347 | exactly the entries of the range get the prefix |
| NetDevice.MkCyclicControl | agents/NetDevices/Configurator.cpp:314-326 | the control text has one line a code, in order, each naming its cyclic successor |
| ControlText.ReadLines | agents/NetDevices/Configurator.cpp:317-326 | a control text reads back, attribute by attribute, as exactly the entries it was written from |
| ControlText.TextGivesTable | agents/NetDevices/Automaton.cpp:12-18 | the cyclic control text read back is the table that takes every code to the one that follows it |
| NetDevice.NextStateFollows | agents/NetDevices/Automaton.cpp:16-18 | the table read back is total on the codes and gives each its cyclic successor |
| NetDevice.OnActions | agents/NetDevices/Automaton.cpp:30-44 | on ON, a device whose status is a code is told the statuses of the next code |
| NetDevice.SingleCycle | agents/NetDevices/Automaton.cpp:16-18 | 2^n steps from any code visit every ON/OFF vector exactly once and return |
| NetDevice.Walk | agents/NetDevices/Device.cpp:44-57 | a device sent ON 2^n times goes through those states and is back where it began |
| NetDevice.CommandKeepsCode | agents/NetDevices/Device.cpp:44-57 | ON changes one component, OFF clears all, a full vector is taken over; the device always stays on a code of the table |
| NetDevice.AggregateValue | agents/NetDevices/Device.cpp:121-127 | every space becomes a plus sign and nothing else changes |
| ControlText.ValuesMean | agents/NetDevices/Device.cpp:140-144 | a command's spaces are plus signs, an event of a light switch means ON, every other value is taken as it is |
| ControlText.CommandEffects | agents/NetDevices/Automaton.cpp:30-44 | nothing happens for a kind that is no trigger, for ON at a status not in the table, and for other single words; OFF puts every component off |
| ControlText.AnswersShow | agents/NetDevices/Device.cpp:46-52 | after a command the first statuses are the components' answers and the others stay |
| ControlText.AnswersMean | agents/NetDevices/Component.cpp:29-59 | a component answers the value it was told, unless it would have to send a command and has no address |
| NetDevice.Component.SetValue | agents/NetDevices/Component.cpp:29-59 | the status is taken; the answer is the value, except when an active component that knows command and answer has no address; it stays active only if it does reach its agent |
| NetDevice.Device.Status | agents/NetDevices/Device.cpp:90-97 | the status is the joined statuses of the components |
| NetDevice.Device.SetStatus | agents/NetDevices/Device.cpp:99-107 | the parts go to the components in order, as far as both reach, and the other components keep theirs |
| NetDevice.Device.Command | agents/NetDevices/Device.cpp:46-53 | the components named by the actions take them, then their answers, joined and cut apart again, are written over the statuses as far as they reach |
| GrayCode.SplitJoinParts | agents/NetDevices/Device.cpp:46-53 | a joined status is cut into its parts without the empty ones in front and without an empty last one |
| NetDevice.SettledExact | agents/NetDevices/Device.cpp:46-53 | actions that are answered take effect, each at its component and the others unchanged, exactly when there are none, the first is not empty, or all are empty |
| NetDevice.CommandExact | agents/NetDevices/Device.cpp:44-53 | for every message the same of the actions it causes; a command of several values takes effect as asked exactly when it does not begin with a plus sign or is nothing else |
| NetDevice.EmptyPartShifts | agents/NetDevices/Device.cpp:44-53 | the message " ON" to a device of two components in state OFF+OFF makes both ON |
| NetDevice.Device.Receive | agents/NetDevices/Device.cpp:44-53 | the same for a raw message, its value normalized by kind |
| LoadControl.StopChoice | agents/PwrControl/Scheduler.cpp:120-128 | the choice is the first stoppable control of least priority; none only if all stoppable ones have priority 1000 or more |
| LoadControl.StartChoice | agents/PwrControl/Scheduler.cpp:138-146 | the choice is the last startable control of greatest priority; none only if all startable ones have negative priority |
| LoadControl.UpdateFirstAt | agents/PwrControl/ControlSet.cpp:40-57 | an operator's update changes no control but one of the name given, and that one only in the fields and to the values asked for |
| SchedulerLaws.StopsExactly | agents/PwrControl/Scheduler.cpp:63-136 | a reading above the target stops exactly one control if any is enabled, on, past its lockout and below priority 1000: the first of least priority; otherwise none |
| SchedulerLaws.StartsExactly | agents/PwrControl/Scheduler.cpp:63-151 | a reading below the target starts exactly one control if any is enabled, off, past its lockout, of priority 0 or more and fits nine tenths of what is available: the last of greatest priority; otherwise none |
| SchedulerLaws.QuietReadings | agents/PwrControl/Scheduler.cpp:65-79 | an inactive scheduler, or one that reads its target, commands nothing |
| SchedulerLaws.MessagesTellModes | agents/PwrControl/Control.cpp:55-57 | every automatic command tells the control's device the control's new mode |
| SchedulerLaws.AlignmentTellsModes | agents/PwrControl/Scheduler.cpp:86-89 | an alignment tells every enabled control that is on or off its own mode, once, in order |
| SchedulerLaws.AlignmentLocks | agents/PwrControl/Control.cpp:44-80 | an alignment locks the controls it tells for their latency and changes no mode |
| SchedulerLaws.LearnsTheLoad | agents/PwrControl/Scheduler.cpp:71-77 | the first reading after a stop makes the estimate the true load of the control stopped, if it drew anything, and happens once |
| SchedulerLaws.UpdateSets | agents/PwrControl/Control.h:22-46 | legal words and given values are set; other words and missing fields leave a control as it was |
| SchedulerLaws.ModeEventSets | agents/PwrControl/ControlSet.cpp:82-91 | an event about a load's name puts all controls of that name on or off, 1 and 0 too, and changes nothing else |
| SchedulerLaws.ResetSets | agents/PwrControl/ControlSet.cpp:59-79 | a reset turns the first control of the name off, or all if none is given, with priority 0, and changes nothing else |
| SchedulerLaws.SetReachesFirst | agents/PwrControl/ControlSet.cpp:40-57 | an operator's update reaches the first control of the name and no other |
| SchedulerLaws.SwitchesSet | agents/PwrControl/Controller.cpp:58-64 | switching the scheduler and setting its target change only that: ON is on, any other word off, and a target given is the one aimed at |
| SchedulerLaws.StopsAndStarts | agents/PwrControl/Control.cpp:44-80 | a stop or start, forced or not: when it is carried out, the mode it leaves, and the lockout of the configured latency |
| ClosedLoop.HeadroomExact | agents/PwrControl/Control.cpp:34 | the comparison with nine tenths is passed only by loads that fit exactly when the estimate is at least nine tenths of the load, or the load draws nothing |
| ClosedLoop.HeadroomNeeded | agents/PwrControl/Scheduler.cpp:63-80 | for a control that may be started, no target lets one measurement take the power from below it to above it, exactly when the estimate is at least nine tenths of the load, or the load draws nothing |
| ClosedLoop.LearnKeepsCover | agents/PwrControl/Scheduler.cpp:71-77 | learning from the first measurement after a stop keeps the estimates covering the loads |
| ClosedLoop.IncreaseEffect | agents/PwrControl/Scheduler.cpp:138-151 | a start never takes the power above the target |
| ClosedLoop.StepEffect | agents/PwrControl/Scheduler.cpp:63-91 | a measurement or forced alignment keeps the invariant, keeps power at or below target once there, and pays for each command from the budget |
| ClosedLoop.ClosedLoopSafe | agents/PwrControl/Scheduler.cpp:63-151 | in every run power once at or below target stays there, learned estimates included, and at most 2n automatic commands are issued for n controls |
| ClosedLoop.ShedStep | agents/PwrControl/Scheduler.cpp:120-136 | an overload reading stops the first control in shedding order and nothing else, or finds none left |
| ClosedLoop.ShedsOneEach | agents/PwrControl/Scheduler.cpp:120-136 | k overload readings stop the smaller of k and the number of sheddable controls |
| ClosedLoop.ShedsInOrder | agents/PwrControl/Scheduler.cpp:120-136 | the stops go in order of priority, then position, and no sheddable control left on comes before a stopped one |
| ClosedLoop.ShedsToTarget | agents/PwrControl/Scheduler.cpp:63-136 | with the measured power that of the loads on and latencies elapsed, no more measurements than there are sheddable controls bring it to the target or below, or leave nothing sheddable |
| Lockout.StepHolds | agents/PwrControl/ControlSet.cpp:40-91 | any message leaves every control's lockout alone or moves it to now plus its latency, and commands go only to controls whose lockout is over |
| Lockout.StepLocks | agents/PwrControl/Control.cpp:44-80 | one message keeps past commands locked out and separated, and adds at most one |
| Lockout.RunLocks | agents/PwrControl/Scheduler.cpp:63-91 | the same over every run |
| Lockout.LatencyLockout | agents/PwrControl/Scheduler.cpp:63-151 | in every run with a clock that does not go back, operator changes, threshold changes, switching the scheduler off and on and forced alignments included, two automatic commands to one control are at least its latency apart |
| Lockout.LatencyAsConfigured | agents/PwrControl/Control.cpp:50-54 | from controls whose latency is not read yet, or was read as configured, two automatic commands to one control are at least its configured latency apart in every run, and the latencies stay as configured |
| Scheduler.Control.constructor | agents/PwrControl/Control.h:16 | a new control has no estimate, no lockout and a latency not yet read |
| Scheduler.Control.MayStart | agents/PwrControl/Control.cpp:25-36 | true exactly for an enabled control that is off, past its lockout, whose load fits nine tenths of what is available |
| Scheduler.Control.MayStop | agents/PwrControl/Control.cpp:38-42 | true exactly for an enabled control that is on and past its lockout |
| Scheduler.Control.Stop | agents/PwrControl/Control.cpp:44-61 | mode, latency and lockout after a stop, the message it adds, and when it does nothing |
| Scheduler.Control.Start | agents/PwrControl/Control.cpp:63-80 | mode, latency and lockout after a start, the message it adds, and when it does nothing |
| Scheduler.Control.LoadEstimateUpdate | agents/PwrControl/Control.cpp:19-23 | only the estimate changes |
| Scheduler.Control.Apply | agents/PwrControl/Control.h:22-46 | illegal status and mode words and absent fields leave the control as it was |
| Scheduler.Scheduler.Measured | agents/PwrControl/Scheduler.cpp:65-80 | one measurement learns, then issues at most one command, to the control the choice names |
| Scheduler.Scheduler.ReduceLoad | agents/PwrControl/Scheduler.cpp:120-136 | the chosen control is stopped and remembered with time and power, the others are unchanged |
| Scheduler.Scheduler.SelectStop | agents/PwrControl/Scheduler.cpp:121-128 | the running minimum finds the first stoppable control of least priority, or none |
| Scheduler.Scheduler.TryIncreaseLoad | agents/PwrControl/Scheduler.cpp:138-151 | the chosen control is started, the others are unchanged |
| Scheduler.Scheduler.SelectStart | agents/PwrControl/Scheduler.cpp:139-146 | the running maximum finds the last startable control of greatest priority, or none |
| Scheduler.Scheduler.AligneControl | agents/PwrControl/Scheduler.cpp:83-91 | every enabled control repeats the command its mode calls for, in order, and no mode changes |
| Scheduler.Scheduler.AlignOne | agents/PwrControl/Scheduler.cpp:87-88 | one control repeats the command of its mode if enabled |
| Scheduler.Scheduler.CheckControl | agents/PwrControl/Scheduler.cpp:63-81 | a message on the controlled measure is a measurement, any other one a mode event, as in the runs of the lockout theorem |
| Scheduler.Scheduler.SetStatus | agents/PwrControl/Controller.cpp:62-63 | the scheduler is on after the word ON and off after any other, as in the runs of the lockout theorem |
| Scheduler.Scheduler.HandleMode | agents/PwrControl/ControlSet.cpp:82-91 | every control of the name takes the mode, 1 and 0 standing for ON and OFF, and other words change nothing |
| Scheduler.Scheduler.SetControl | agents/PwrControl/ControlSet.cpp:40-57 | the first control of the name is updated, and the result says whether there is one |
| Scheduler.Scheduler.ResetControl | agents/PwrControl/ControlSet.cpp:59-79 | the first control of the name, or all for an empty name, go to mode OFF and priority 0 |
| LeakyCounter.PeakIsMaximum | agents/Manager/eventcounter.cpp:144-165 | the peak is an upper bound of zero and all bursts, and one of them |
| LeakyCounter.FromState | agents/Manager/eventcounter.cpp:152-173 | from any counter value, the reading is the larger of what that value leads to and the peak of the events since |
| LeakyCounter.ClosedForm | agents/Manager/eventcounterset.cpp:26-43 | for every trace of events and polls the counter is the maximum of zero and, over all events i, increment times the events from i on minus decrement times the time since i |
| LeakyCounter.NeverClamped | agents/Manager/eventcounter.cpp:161-163 | a counter that grows with time and with events is never cut at zero |
| LeakyCounter.PollingDoesNotMatter | agents/Manager/eventcounter.cpp:152-173 | two traces with the same events, polled differently, read the same unless both rates are negative |
| LeakyCounter.PollingMatters | agents/Manager/eventcounter.cpp:152-173 | for every pair of negative rates one more poll can change the reading |
| DelayQueue.Earliest | agents/Manager/eventcounter.cpp:59-71 | the index found is that of the first earliest deadline |
| DelayQueue.GetValid | agents/Manager/eventcounter.cpp:73-84 | a get delivers the oldest message exactly when its deadline has come, and keeps the invariant |
| DelayQueue.AppendValid | agents/Manager/eventcounter.cpp:86-95 | an append keeps the invariant, refused at 101 entries |
| DelayQueue.AppendAccepts | agents/Manager/eventcounter.cpp:86-95 | a queue of at most a hundred messages takes one more, due after its delay; a fuller one refuses |
| DelayQueue.GetsEmpty | agents/Manager/eventcounter.cpp:73-84 | as many gets as there are messages, at times when all are due, deliver all of them in order |
| DelayQueue.ClearValid | agents/Manager/eventcounter.cpp:191-194 | a clear keeps the invariant although it leaves the cached deadline |
| DelayQueue.ClearDrops | agents/Manager/eventcounter.cpp:191-194 | a clear leaves nothing and what it dropped is what was queued |
| DelayQueue.RunValid | agents/Manager/eventcounter.cpp:59-95 | every run keeps the invariant |
| DelayQueue.QueueDiscipline | agents/Manager/eventcounter.cpp:59-95 | in every run the cached index of a non-empty queue is that of an earliest deadline, messages leave in the order they came, none before append time plus delay, at most 101 are held, accepted equals left plus queued |
| DelayQueue.DelayedMessages.constructor | agents/Manager/eventcounter.cpp:122-123 | a new queue is empty and has its delay |
| DelayQueue.DelayedMessages.DeadlineUpdate | agents/Manager/eventcounter.cpp:59-71 | the scan caches the first earliest deadline and its index |
| DelayQueue.DelayedMessages.MessageGet | agents/Manager/eventcounter.cpp:73-84 | the message at the cached index is erased and returned when due, else nothing changes |
| DelayQueue.DelayedMessages.MessageAppend | agents/Manager/eventcounter.cpp:86-95 | the message goes to the end with its deadline, unless the queue is over its limit |
| DelayQueue.DelayedMessages.ClearAll | agents/Manager/eventcounter.cpp:191-194 | the entries go, the cache stays |
| EventCounter.DeliverySkipsDecay | agents/Manager/eventcounter.cpp:152-163 | compared with letting the time pass and then counting, a poll that delivers reads too much by exactly the smaller of the old value and what should have leaked |
| EventCounter.DeliveryRight | agents/Manager/eventcounter.cpp:152-163 | for any rates and any counter, negative ones too, the exact condition under which a poll that delivers leaves what leaking and then counting leaves |
| EventCounter.DirectInput | agents/Manager/eventcounterset.cpp:26-34 | without a queue, a poll followed by a message is one input of the closed form's trace |
| EventCounter.MatchesMean | agents/Manager/eventcounter.cpp:183-189 | a message counts exactly if its value is accepted and it names the counter or an alias in one of four places |
| EventCounter.ReportsMean | agents/Manager/eventcounter.cpp:127-149 | without a queue a match adds the increment and reports the counter, anything else neither; with a queue only when something is due |
| EventCounter.EventCounter.constructor | agents/Manager/eventcounter.cpp:105-125 | a new counter is zero and starts its clock now |
| EventCounter.EventCounter.Update | agents/Manager/eventcounter.cpp:138-149 | one event adds the increment |
| EventCounter.EventCounter.EventUpdate | agents/Manager/eventcounter.cpp:127-136 | a matching message is counted, or queued and a due one counted, and the counter's value is returned if something was counted, else 0; any other message changes nothing |
| EventCounter.EventCounter.TimeUpdate | agents/Manager/eventcounter.cpp:152-173 | a due message is counted first and restarts the clock, then the leak is taken, never below zero |
| EventCounter.EventCounterSet.EventUpdate | agents/Manager/eventcounterset.cpp:26-34 | every counter, with or without a queue, is polled before any counts, each that matches then takes the message, and the set is active exactly if the values reported add up to more than zero |
| EventCounter.EventCounterSet.CountAll | agents/Manager/eventcounterset.cpp:29-33 | the message goes to every counter once and what they report is added up |
| EventCounter.EventCounterSet.TimeUpdate | agents/Manager/eventcounterset.cpp:36-43 | every counter is polled once, and the set is active exactly if the counters add up to more than zero |
| QueuedCounter.StepAgrees | agents/Manager/eventcounterset.cpp:26-34 | a poll and a message to a queue-fed counter are, on the clock that stands still before delivering polls, one or two inputs of a leaky counter |
| QueuedCounter.RunAgrees | agents/Manager/eventcounter.cpp:127-173 | every run of a queue-fed counter reads what a leaky counter without a queue reads of the deliveries on that clock |
| QueuedCounter.TraceInOrder | agents/Manager/eventcounter.cpp:152-173 | on that clock the deliveries come in order |
| QueuedCounter.QueuedClosedForm | agents/Manager/eventcounter.cpp:127-173 | after every run from zero a queue-fed counter is the maximum of zero and, over all deliveries i, increment times the deliveries from i on minus decrement times the time since i without the intervals that ended in a delivering poll |
| TimedRule.FindName | agents/Manager/timedrule.cpp:168 | the position is the first of the name, or -1 |
| TimedRule.AllMarked | agents/Manager/timedrule.cpp:157-177 | all flags are set exactly when every enabling condition holds and none is listed twice |
| TimedRule.CheckCondition | agents/Manager/timedrule.cpp:157-177 | the check succeeds exactly when there is no condition set, or every enabling condition holds and none is listed twice |
| TimedRule.ActiveIffInForce | agents/Manager/timedrule.cpp:36-80 | after every tick a timed or program_timed rule is on exactly when it is enabled, in its window, its conditions hold and, for program_timed, its program runs |
| RuleLaws.OnExactly | agents/Manager/timedrule.cpp:36-80 | the same in plain terms: window, open-ended window, every enabling name held and none twice, program running |
| RuleLaws.TimedTick | agents/Manager/timedrule.cpp:36-109 | one tick of a timed rule acts exactly so: set when it comes on and at every cycle while on, reset when it goes off, nothing else |
| RuleLaws.CyclicTick | agents/Manager/timedrule.cpp:81-126 | one tick of a cyclic rule sets exactly when a laid-out boundary lies before now and the rule is enabled, in its window, satisfied and its program runs; the next boundary is a cycle later |
| RuleLaws.OtherRests | agents/Manager/timedrule.cpp:44-50 | a rule in any other mode only goes off when it is disabled |
| RuleLaws.EveryBoundarySets | agents/Manager/timedrule.cpp:81-126 | over a run in which a cyclic rule may act at every tick and no gap is longer than the cycle, the sets are exactly as many as the boundaries passed |
| RuleLaws.MessagesAre | agents/Manager/timedrule.cpp:129-144 | an action is one message for each of its parts but the word none, in order, with the comment |
| TimedRule.SetsBeforeResets | agents/Manager/timedrule.cpp:36-80 | over every run a reset comes only after a set; without a cycle no set comes while on; the last action tells whether the rule is on |
| TimedRule.StrictlyAlternating | agents/Manager/timedrule.cpp:51-80 | an orderly list of actions alternates position by position |
| TimedRule.RunAlternates | agents/Manager/timedrule.cpp:36-80 | in every run of a new timed rule without a cycle, even positions are sets and odd ones resets |
| TimedRule.SetsAfterBoundaries | agents/Manager/timedrule.cpp:81-126 | in every run of a cyclic or program_cyclic rule the sets are at most one for each cycle boundary passed, and none comes before its boundary |
| TimedRule.AfterMeans | agents/Manager/timedrule.cpp:110-126 | in such a list of times the i-th comes after the i-th boundary |
| TimedRule.NewCyclicRule | agents/Manager/timedrule.cpp:110-126 | a new cyclic rule sets nothing at its first tick, lays out the first boundary at or after it, less than a cycle away and a whole number of cycles from the start of that day, and its i-th set comes after the i-th boundary from there |
| TimedRule.CyclicOnlySets | agents/Manager/timedrule.cpp:81-93 | in the cyclic modes a run from a rule that is off never resets, and without a cycle it does nothing |
| TimedRule.DoubledNeverSets | agents/Manager/timedrule.cpp:157-177 | in every run with a condition set, a rule that lists an enabling condition twice sets nothing in any mode, and a timed one is off after every tick |
| TimedRule.DoubledUnchecked | agents/Manager/timedrule.cpp:161-163 | the same rule is in force without a condition set, and not with one in which the condition holds |
| TimedRule.TimedRule.constructor | agents/Manager/timedrule.cpp:30-32 | a new rule is off and has no cycle laid out |
| TimedRule.TimedRule.TimeUpdate | agents/Manager/timedrule.cpp:36-94 | one tick in any of the four modes: new state, at most one action, and the messages it adds |
| TimedRule.TimedRule.CycleUpdate | agents/Manager/timedrule.cpp:96-127 | whether a cycle begins now and when the next one does, first layout from the start of the day included |
| TimedRule.TimedRule.MakeAction | agents/Manager/timedrule.cpp:129-144 | one message for each set or reset action that is not the word none, in order |
| Timer.StartedContains | agents/BBDevices/Timer.cpp:138-150 | starting a condition leaves it in the list and loses no different one |
| Timer.WaitedKeepsOthers | agents/BBDevices/Timer.cpp:119-128 | a wait message never touches a running set condition of another key, and a reset not even that of its own key |
| Timer.ReportsContain | agents/BBDevices/Timer.cpp:37-49 | every due condition not yet expired is among the reports |
| Timer.ReportsOnlyDue | agents/BBDevices/Timer.cpp:37-49 | every report is that of a condition due and not yet expired |
| Timer.EntryLife | agents/BBDevices/Timer.cpp:30-49 | an entry counts down until nothing is left, is then reported once, and rests |
| Timer.ReportedOnce | agents/BBDevices/Timer.cpp:37-49 | what was reported is not reported again |
| Timer.WaitIgnored | agents/BBDevices/Timer.cpp:119-128 | a wait without a positive duration changes nothing |
| Timer.ResetMeans | agents/BBDevices/Timer.cpp:123-159 | a reset wait ends at the next poll on an empty timer or one that begins with its entry, and otherwise runs for its duration |
| Timer.WaitedKeys | agents/BBDevices/Timer.cpp:119-128 | a wait message brings no key into the timer but its own |
| Timer.WaitedOthers | agents/BBDevices/Timer.cpp:119-159 | a wait message changes no entry of another key |
| Timer.Timer.constructor | agents/BBDevices/Timer.cpp:69-72 | a new timer has no conditions |
| Timer.Timer.Update | agents/BBDevices/Timer.cpp:87-92 | every unexpired condition loses the period, expired ones are left |
| Timer.Timer.OnPoll | agents/BBDevices/Timer.cpp:105-118 | a poll later than half a period after the last accepted one counts down and reports; any other changes nothing |
| Timer.Timer.ReportEnded | agents/BBDevices/Timer.cpp:111-115 | the keys due are reported in order and marked expired, so each is reported once |
| Timer.Timer.OnWait | agents/BBDevices/Timer.cpp:119-128 | keys without positive duration are ignored, set starts, reset starts a second entry and looks at the first |
| Timer.Timer.StartTimer | agents/BBDevices/Timer.cpp:138-150 | the first equal condition is replaced, or a new one goes to the end |
| Timer.Timer.ResetTimer | agents/BBDevices/Timer.cpp:152-159 | only the first condition of the list can be set to zero |
| BinaryOutput.ExecWaitName | agents/BBDevices/VirtualDevices.cpp:246-252 | the scan and erase in place leave the name the key addresses, short keys included |
| BinaryOutput.KeyParts | agents/BBDevices/BinaryOutput.cpp:12 | a wait key starts with its duration and ends with its name |
| BinaryOutput.ScanTo | agents/BBDevices/VirtualDevices.cpp:249-251 | the scan stops at the first such character, or at the end |
| BinaryOutput.AddresseeOfKey | agents/BBDevices/VirtualDevices.cpp:246-252 | a wait key finds its own device again exactly when the name has at least two characters and no separator |
| BinaryOutput.BinaryOutput.constructor | agents/BBDevices/BinaryOutput.cpp:6-20 | the stored value is taken up, else the default, else OFF; durations empty, 0 or -1 mean none |
| BinaryOutput.BinaryOutput.ExecCmd | agents/BBDevices/BinaryOutput.cpp:22-88 | new value and notices, in order, of a command, a repeated command and the end of a wait |
| BinaryOutput.BinaryOutput.Remap | agents/BBDevices/BinaryOutput.cpp:116-120 | a value without a remapping, or with an empty one, stays itself |
| AutoOff.CommandGuards | agents/BBDevices/BinaryOutput.cpp:22-66 | after a command away from the default an unexpired entry holds the full duration |
| AutoOff.PollGuards | agents/BBDevices/Timer.cpp:105-118 | a poll takes the lapse off that entry, or ends it and turns the output back |
| AutoOff.StepGuards | agents/BBDevices/Timer.cpp:94-136 | every step keeps: away from default implies an unexpired entry with exactly the time left |
| AutoOff.RunGuards | agents/BBDevices/Timer.cpp:94-136 | every run keeps it |
| AutoOff.BackAtDefault | agents/BBDevices/BinaryOutput.cpp:22-88 | in every run of commands, polls and other devices' waits, from any state, the output is at its default by the time accepted polls since the last command away sum to its duration |
| OutputPort.ExecFollows | agents/BBDevices/BinaryOutput.cpp:22-88 | one message tells the port the word for the new value if the value changes, and nothing otherwise |
| OutputPort.RunFollows | agents/BBDevices/BinaryOutput.cpp:22-120 | over every run of commands, polls and other waits a port that was told anything holds the word for the present value, and it was told of every change |
| OutputPort.PortBackAtDefault | agents/BBDevices/BinaryOutput.cpp:67-77 | by the time accepted polls since the last command away sum to the duration the port itself holds the word for the default |
| OutputPort.EventsTell | agents/BBDevices/BinaryOutput.cpp:36-39 | a command's event tells the new value, the event of an ended wait the timer's key |
| OutputPort.OthersIgnored | agents/BBDevices/BinaryOutput.cpp:26-88 | messages for others that are no end of a wait do nothing |
| AutoOff.StepStuck | agents/BBDevices/VirtualDevices.cpp:246-255 | an output that is away while nothing in the timer addresses it stays so over any poll, other device's wait or command to another value |
| AutoOff.NeverBack | agents/BBDevices/VirtualDevices.cpp:246-255 | an output whose key does not come back to it, or comes back as a command, stays away over every run of polls, other devices' waits and commands to other values |
| AutoOff.StuckAfterCommand | agents/BBDevices/VirtualDevices.cpp:246-255 | for such an output one command away from the default is enough |
| AutoOff.GovernedByName | agents/BBDevices/VirtualDevices.cpp:246-255 | the bound's condition holds exactly for names of two characters or more without separator other than the word end |
| EarlyOff.PollTurnsOff | agents/BBDevices/Timer.cpp:105-118 | an accepted poll turns an output off exactly if some unexpired entry addressing it is due |
| EarlyOff.WhenBack | agents/BBDevices/Timer.cpp:94-136 | over any polls and waits of other devices an output is turned off exactly when the accepted polls add up to the time left of some unexpired entry addressing it |
| EarlyOff.NotEarly | agents/BBDevices/Timer.cpp:119-159 | after a command away from the default the output stays away for its whole duration, however it is polled and whatever other devices wait for, exactly when no unexpired entry addressing it is due sooner |
| EarlyOff.RegularPolls | agents/BBDevices/Timer.cpp:105-118 | commanded away on a timer that holds nothing, an output is at its default after n polls of one period exactly when n periods make up its duration |
| EarlyOff.PollsCount | agents/BBDevices/Timer.cpp:105-110 | a poll within half a period of the last that counted does not count, and one without a period counts as one second |
| EarlyOff.EndsEarly | agents/BBDevices/Timer.cpp:123-159 | switched on, off and after half its duration on again, every governed output goes off after the other half |
| StateMachine.CompilationNumbersTargets | agents/BBDevices/FSMDevice.cpp:142-145 | with distinct names and defined targets every transition gets the number of its target and is otherwise unchanged |
| StateMachine.StatesNumbered | agents/BBDevices/FSMDevice.cpp:202-203 | with distinct names every state gets its own position as its number |
| StateMachine.AcceptsWhatFires | agents/BBDevices/FSMDevice.cpp:336-357 | a message is accepted exactly when some transition of the current state has its condition, one then fires, and the expected list is that of the new state |
| StateMachine.ShownIsLast | agents/BBDevices/FSMDevice.cpp:345-350 | the value shown is that of the last event whose subtype has the device's name anywhere in it |
| StateMachine.NoneAbout | agents/BBDevices/FSMDevice.cpp:345-350 | with no such event the value shown stays |
| StateMachine.StepAgrees | agents/BBDevices/FSMDevice.cpp:195-200 | one message moves the numeric machine and the named one to the same state with the same reply |
| StateMachine.CompilationFaithful | agents/BBDevices/FSMDevice.cpp:275-374 | for every message sequence the compiled machine goes through the same states with the same acceptances and actions as the machine that follows names |
| StateMachine.ActiveConditions | agents/BBDevices/FSMDevice.cpp:119-125 | the expected list holds the conditions of the transitions, no others and none twice |
| StateMachine.StartIndex | agents/BBDevices/FSMDevice.cpp:280 | the start state is the last one named TRUE, or the first if there is none |
| StateMachine.StartsAtMark | agents/BBDevices/FSMDevice.cpp:152-154 | with one marked state the device starts in it exactly when no later state is named TRUE and it is itself named TRUE or the first |
| StateMachine.MarkIgnored | agents/BBDevices/FSMDevice.cpp:153 | a machine of two states whose second is marked starts in the first |
| StateMachine.CompiledWithin | agents/BBDevices/FSMDevice.cpp:275-279 | even with repeated names, a transition whose target exists ends up with the number of some state |
| StateMachine.FSMDevice.constructor | agents/BBDevices/FSMDevice.cpp:220-235 | a loaded device is the compiled machine, in the last state named TRUE or the first, expecting that state's conditions |
| StateMachine.FSMDevice.CompileAll | agents/BBDevices/FSMDevice.cpp:275-279 | the nested loops give every name its number everywhere |
| StateMachine.FSMDevice.FindStart | agents/BBDevices/FSMDevice.cpp:280 | the device starts in the last state named TRUE, or in the first |
| StateMachine.FSMDevice.CompileOne | agents/BBDevices/FSMDevice.cpp:276-278 | one round numbers one name in all states |
| StateMachine.FSMDevice.CompileOneState | agents/BBDevices/FSMDevice.cpp:202-207 | one name is numbered in one state and its transitions |
| StateMachine.FSMDevice.FillExpected | agents/BBDevices/FSMDevice.cpp:189-193 | the expected list becomes that of the current state |
| StateMachine.FSMDevice.Exec | agents/BBDevices/FSMDevice.cpp:331-334 | the first matching transition gives actions and next state, and the old state is remembered |
| StateMachine.FSMDevice.ExecCmd | agents/BBDevices/FSMDevice.cpp:336-357 | an expected message makes one step, emits its actions in order and shows the value of the last event about the device; any other changes nothing |
| StateMachine.FSMDevice.UpdateChannel | agents/BBDevices/FSMDevice.cpp:359-374 | a channel change makes the same step and leaves the value shown |
| TriStateOutput.SafeMeansPrefixes | agents/BBDevices/TriStateOutput.cpp:96-166 | a safe list of notices has no prefix after which both relays are on |
| TriStateOutput.Interlock | agents/BBDevices/TriStateOutput.cpp:27-166 | with distinct outputs and a default not remapped to ON, no sequence of commands, button changes and timer ends ever has both relays on, not even between two commands |
| TriStateOutput.InterlockBreaks | agents/BBDevices/TriStateOutput.cpp:148-166 | with a default remapped to ON there is always a sequence that switches both relays on |
| RelayDirection.RelaysFollowStatus | agents/BBDevices/TriStateOutput.cpp:27-166 | with the default OFF, over every run, status UP means exactly the up relay on, DOWN exactly the down relay, OFF neither |
| RelayDirection.CommandDirection | agents/BBDevices/TriStateOutput.cpp:40-44 | up, down and off, in small letters too, leave exactly that relay on, or none |
| RelayDirection.ButtonDirection | agents/BBDevices/TriStateOutput.cpp:45-53 | the up button drives up whatever the other does, the down button alone drives down, none stops, other levels do nothing |
| RelayDirection.WordsTold | agents/BBDevices/TriStateOutput.cpp:90-135 | the relay of the direction is told the remapped word for ON after the other was told that for OFF |
| RelayDirection.WaitsAndEvents | agents/BBDevices/TriStateOutput.cpp:136-144 | a wait is asked for exactly when a timed motor changes to another status than its default, and every command ends with its event |
| RelayDirection.WaitEnds | agents/BBDevices/TriStateOutput.cpp:148-166 | the end of a wait takes a motor away from its default back to it, with the default's word to both relays and the event, and leaves one at its default alone |
| RelayDirection.DisabledRests | agents/BBDevices/TriStateOutput.cpp:35-38 | a disabled motor does nothing |
| TriStateOutput.TriStateOutput.constructor | agents/BBDevices/TriStateOutput.cpp:6-25 | input levels not configured start at 1 and the stored status is taken up |
| TriStateOutput.TriStateOutput.ExecCmd | agents/BBDevices/TriStateOutput.cpp:27-58 | new state and notices of a command, a button change and a timer end; a disabled device does nothing |
| TriStateOutput.TriStateOutput.DoCmdAction | agents/BBDevices/TriStateOutput.cpp:96-146 | the relay that must go off is commanded before the one that goes on, then the wait, then the event |
| TriStateOutput.TriStateOutput.DoWaitAction | agents/BBDevices/TriStateOutput.cpp:148-166 | both relays get the default's word and the status becomes the default |
| FreshName.NumberedInjective | agents/BBDevices/GPIOThread.cpp:317 | different numbers make different names |
| FreshName.DecimalMeans | agents/BBDevices/GPIOThread.cpp:317 | the digits of a number are digits, stand for the number and have no leading zero |
| FreshName.NumberedMeans | agents/BBDevices/GPIOThread.cpp:317 | a name is PR and the digits of its number |
| FreshName.NextNumberFree | agents/BBDevices/GPIOThread.cpp:324 | if n devices use PR1 to PRn, none is called PR(n+1) |
| FreshName.MkName | agents/BBDevices/GPIOThread.cpp:314-326 | whatever the devices are called, the name made is none of theirs, and is the first free one of PR1, PR2, and so on |

## Left out

Contracts that say less than the code does, or need more:

- WebSocket.RealWebSocket.DispatchBinary: requires that no header met announces a size whose sum with the header length reaches 2^64; beyond that the code's comparison wraps.
- WebSocket.FeedPieces: the same requirement on the whole stream.
- WebSocket.NextByHeader: the same requirement on the buffer.
- WebSocket.RealWebSocket.Deliver: the application may send, ping and close from its callback, but not poll or dispatch again from inside it.
- Session.HandleAllReplies: for an application that only listens; what one queues in between is in OutgoingStreamDiscipline and MessagesInOrder.
- MathExpression.MathExpression.Tokenize: requires a text that is not empty, because the loop bound is the unsigned size less one.
- MathExpression.MathExpression.Parse: requires a text that is not empty, for the same reason.
- MathExpression.EvaluateText: for single spaces and texts that do not end in a closing parenthesis; EvaluateSpaced covers the others.
- LastParenthesis.EvaluateSpaced: for texts in which nothing merges; a merged token is looked up as a name, so the value then depends on the table.
- Compiler.EvaluatesPostorder: the power function is a parameter, and numbers are reals without rounding.
- GrayCode.GenerateGrayCode: numbers are unbounded, so the overflow of the 32-bit size for 31 components and more, and the stack space of the array, are not modelled.
- NetDevice.Component.SetValue: whether the agent's reply holds the expected answer is left open, and an address resolves or not once and for all.
- NetDevice.Device.Command: requires no more actions than components; the code would index past the components.
- NetDevice.Device.Receive: the same requirement.
- NetDevice.Walk: requires resolving addresses; a component without one answers another word, which is then its status and not on the table.
- NetDevice.CommandKeepsCode: the same requirement, and commands of ON, OFF or one ON or OFF for each component.
- Scheduler.Control.LoadEstimateUpdate: the time of the update is not kept; nothing reads it.
- DelayQueue.DelayedMessages.MessageGet: the delivery time written into the message is kept in the ghost record of departures only.
- EventCounter.EventCounter.Update: the event history and the comment are not kept.
- EventCounter.EventCounter.TimeUpdate: the history is not trimmed, since it is not kept.
- ClosedLoop.ClosedLoopSafe: requires that the initial estimates cover nine tenths of the loads, which HeadroomNeeded shows is what the code needs, and that loads and base are constant and operators are idle.
- QueuedCounter.QueuedClosedForm: requires rates that are not negative, and that every message is preceded by a poll, as in a set.
- TimedRule.NewCyclicRule: requires a clock that is not negative, since a negative boundary means none is laid out.
- LeakyCounter.FromState: requires a decrement that is not negative, like the closed form.
- LeakyCounter.ClosedForm: requires a decrement that is not negative; with a negative one NeverClamped and PollingMatters say what happens.
- AutoOff.BackAtDefault: notices are delivered before the next step, and other devices use other keys.
- AutoOff.GovernedByName: an output called end whose default value is spelled like its own key is neither governed nor stuck.
- EarlyOff.NotEarly: about the time from the last command on; other devices' waits do not address the output.
- StateMachine.CompilationFaithful: requires distinct names and defined targets; a target that is not defined leaves an uninitialised number in the code.
- StateMachine.FSMDevice.constructor: requires defined targets, for the same reason, and at least one state.
- TriStateOutput.Interlock: requires that the words for ON and OFF stay different after remapping and the outputs differ.

Not modelled at all:

- Sockets, name resolution, the HTTP upgrade, TLS and the asio client: only the effect of receive and send results on the buffers is kept.
- The clock is an argument, one instant for each message handled, and floating-point times and loads are reals.
- Parameter files and the text forms of numbers in them; parameters are maps or typed fields, and a parsed number is a parameter or a field.
- The agent library: message transport, subject sets (a notification is an append to a ghost list), name lists (split at a delimiter), logging, publishing and remote notifications.
- The sync branch of the device loop, the on/off branch of the control generator, and the other templates and files of the configurator.
- The scheduler without a control set or with a sensor, the fallback fields for an operator's control name, and saving a control's configuration.
- Rule matching and its message building: no property of the counter depends on them.
- Loading a state machine from a file, and the empty device that a missing or unreadable file leaves.
- The MQTT devices and the player, near copies of code modelled here, and the WebSocket server managers, which join strings around libraries.
