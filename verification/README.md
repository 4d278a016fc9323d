# kids, modelled and verified

kids is a multi-threaded log broker. Clients speak a Redis-like byte protocol to worker threads; published messages
go onto one shared linked list; every worker and one storer thread consume that list in order; the master thread
reclaims what everybody has read. Messages that the primary store does not take are kept in buffer files and sent to
it later. This project models those mechanisms in Dafny and proves what they are for.

`dafny verify dfyconfig.toml` verifies everything.

## How the files fit together

| file | component |
|---|---|
| `Broker.dfy` | every interleaving of N workers, the storer and the master over the shared queue, with explicit memory: nodes are deleted by address and addresses may be reused |
| `Origin.dfy`, `Delivery.dfy`, `Reclaim.dfy` | what that system has held, told from its actions alone; runs that lead somewhere: everybody catches up, the size bound is reached, a pass frees what all have passed and the queue can be emptied |
| `MsgQueue.dfy` | the linked list itself, with head, tail and the two running totals |
| `Request.dfy`, `Encoding.dfy` | the resumable request parser; the Go client's and NetworkStore's encoders, and their round trip |
| `Reply.dfy`, `GoClient.dfy` | the reply buffer drained by partial writes; the Go client reading the frames back |
| `Glob.dfy`, `Patterns.dfy` | the backtracking topic matcher against a declarative glob semantics; that semantics spelled out pattern by pattern |
| `PubSub.dfy`, `Worker.dfy`, `Sessions.dfy` | the subscription index as values with its agreement proofs; the handlers that change it; what clients are told and what each event does to whom |
| `BufferFile.dfy`, `BufferStore.dfy`, `Recovery.dfy`, `Failover.dfy` | the buffer file format; the failover store as a state machine that refines a FIFO; that it gets everything to the primary; its objects |
| `Buffer.dfy` | the copy-on-write byte buffer over a pool of handles |
| `Sds.dfy`, `QuotingRules.dfy`, `Numbers.dfy` | quoting, unquoting, splitting; the quoting rules case by case; decimal printing and parsing of 64-bit integers |
| `EventPort.dfy` | the event-port registration table |
| `Bytes.dfy`, `Messages.dfy` | bytes, options, concatenation; the log message |

Each stateful component comes in two layers: functions on values, about which the properties are proved for all inputs
and all runs, and classes whose methods follow the program's loops and field updates and are proved equal to those
functions or to keep the same invariant.

## What the environment decides

Results of `read`, `write`, registration, clocks and store replies are parameters or unconstrained results: the number
of bytes a socket takes, whether a notice write succeeds, whether the primary is open and which messages it accepts,
when a buffer file is rotated, whether the kernel grants an association, and for each piece of a reply whether the event
loop registers the descriptor for writing. `tolower` is an arbitrary function; `char` is
signed; the machine is little-endian; `isprint` and `isspace` are those of the C locale.

## Where the code and its comments or protocol differ

* The request parser does not look at the byte before the argument count, where RESP version 2 has `*`
  (`src/client.cc:210` has the assertion commented out). `Request.MarkIsIgnored` says which bytes pass for it: all but
  NUL and CR. It does not look at the byte after a carriage return either, nor at the two bytes behind an argument:
  `Request.LineIsTakenIff`, `Request.TrailerIsIgnored`.
* A NUL in front of a line's CR hides the line: `Request.LineIsTakenIff` gives the exact condition for a line to be taken,
  and `Request.NulStalls` shows that no later byte ever moves that client again.
* On an empty subject the matcher compares a literal or class with the terminating NUL. `Glob.OverrunWitness` gives an
  input that is answered wrongly; `Glob.StringMatch` says that this family is the only one, and exactly when it occurs.
* An unsubscribe confirmation carries the subscription count from before the removal (`src/pubsub.cc:93-98`). It is the
  count that is left if and only if there was nothing to remove: `Worker.TopicCountIsRightIff`,
  `Worker.PatternCountIsRightIff`.
* A message with an empty topic or content can be written to a buffer file but not read back, and hides every message
  behind it in that file. `BufferFile.FileRoundTripIff` gives the exact condition for a file to come back whole,
  `BufferFile.UnreadableHides` the failing input, and `BufferFile.DecodeEncoded` what is read in any case.
* Each piece of a reply frame asks for a registration of its own. If the answers within one frame differ, the frame is
  torn: `Reply.WholeIffAll` and the contracts of `Reply.ReplyChannel` give the exact condition, and
  `GoClient.TornIsNoFrames` a torn frame that no list of frames explains.
* A message that the primary refuses during a transfer is dropped (`src/store/bufferstore.cc:116-121`).
  `BufferStore.RefinesFifo` accounts for it.

## Model

| member | source | states |
|---|---|---|
| Broker.StepKeepsInv | src/master.cc:173-196 | Every atomic step of every thread, in any state of the invariant, keeps it: the list is the live window of the push order, cursors and histories agree with it, notices are counted exactly, the totals are right |
| Broker.EveryRunIsSafe | src/master.cc:218-234 | The invariant holds after every finite interleaving of any number of workers, the storer and the master |
| Origin.LogIsWhatWasPut | src/master.cc:173-180 | For every run, told from its actions alone, the queue has held exactly the messages put, topic and content as given, in the order of the pushes, and each consumer has seen the first of them |
| Origin.CheckIsTakenIff | src/master.cc:174-178 | A put passes the check if and only if fewer messages than the limit are pushed and not yet taken off the account; a refused put changes nothing |
| Origin.MemoryIsText | src/msgqueue.cc:32 | memory_usage is the length of all topics and contents in memory |
| Reclaim.PassReclaims | src/master.cc:226-234 | A whole pass leaves no more nodes in memory than what some consumer had still to read when the pass began and what was pushed since |
| Reclaim.EverythingIsReclaimed | src/msgqueue.cc:84-109 | From every reachable state some run without new messages ends with every history complete, one node in memory and size 0, and a put is let through again |
| Reclaim.FinishPass | src/msgqueue.cc:85-100 | From wherever the master is in it, a pass comes to an end |
| Broker.NoticesAreExact | src/worker.cc:140-165 | For each consumer, pushed minus consumed equals, summed over publishers, waiting counter plus pipe bytes plus a push not yet announced, plus the notice in hand; so the MQNext after a notice byte delivers the next message in push order, never nothing, never a deleted node |
| Broker.HistoriesAreThePushOrder | src/storer.cc:81-123 | Each consumer has seen a prefix of the one push order, and all of it exactly once when nothing is owed to it |
| Broker.BehindMeansOwed | src/worker.cc:145-152 | A consumer that is behind with nothing in hand is owed a notice by some publisher: no message is forgotten when pipe writes fail |
| Broker.ReclamationIsSafe | src/msgqueue.cc:79-100 | With cursors read one by one while they move, a free step deletes only a node strictly before every current cursor; the tail and all nodes at or after a cursor stay; the walk stops on the oldest snapshot before the end of the list |
| Broker.AccountsAndBound | src/msgqueue.cc:25-42 | Outside a free pass size counts the nodes behind the head and memory_usage their bytes; size never exceeds queue_limit plus workers minus one |
| Delivery.EverybodyCatchesUp | src/master.cc:191-196 | From every reachable state, whatever notice writes failed before, a run without new messages and with successful writes ends with every consumer having seen the whole push order |
| Delivery.BoundIsReached | src/master.cc:174-180 | The size bound is exact: for every number of workers and every limit some run reaches it |
| Delivery.WriteOut | src/worker.cc:145-152 | With writes that succeed the write loop ends, nothing waits from where it was on, and no other publisher is touched |
| Delivery.Finish | src/master.cc:173-189 | A worker left alone finishes PutMessage and its writes from any point in them |
| Broker.WalkStops | src/msgqueue.cc:85-98 | The address comparison of the walk is a position comparison, and a walk that has not met a snapshot is short of them all and of the tail |
| Broker.HoldingHasNext | src/msgqueue.cc:64-74 | A consumer that has taken a notice byte has a live successor node holding the next message of the push order |
| Broker.FreeKeepsLinks | src/msgqueue.cc:94-100 | Deleting a node, or ending the pass, keeps the list linked and every cursor on a live node |
| Broker.PushKeepsLinks | src/msgqueue.cc:25-34 | A push, at an address that may have been used before, keeps the list linked in push order |
| Broker.OneConsumerCount | src/worker.cc:140-165 | Every step moves a consumer's distance from the end and what it is owed by the same amount |
| MsgQueue.MessageQueue.constructor | src/msgqueue.cc:4-11 | A new queue is one sentinel without a message |
| MsgQueue.MessageQueue.MQPush | src/msgqueue.cc:25-34 | The node sequence grows by the message at the end; size and memory follow; head stays |
| MsgQueue.MessageQueue.MQNext | src/msgqueue.cc:64-74 | The cursor moves to the next node and its message comes back, or it stays and nothing comes back at the end |
| MsgQueue.MessageQueue.MQFreeOldMessages | src/msgqueue.cc:79-110 | Exactly the nodes before the first one some cursor stands on are deleted, and both totals come down by what they were |
| MsgQueue.MessageQueue.DeleteNodes | src/msgqueue.cc:85-98 | The walk ends on a cursor's node without reaching NULL, having deleted the nodes before it in order |
| Request.AdvanceStable | src/client.cc:203-268 | A piece the parser can take stays the same piece whatever arrives behind it |
| Request.FeedInTwo | src/client.cc:182-190 | Parsing a concatenation is parsing the first part and then the leftover with the second |
| Request.FeedAllIsFeed | src/client.cc:25-37 | Any sequence of reads, empty ones included, ends where one read of all the bytes ends |
| Request.ChunkingIndependence | src/client.cc:182-280 | Any two ways of cutting one stream give the same vectors to ProcessCommand and the same protocol outcome |
| Request.LineIsTakenIff | src/client.cc:203-206 | A line is taken or refused if and only if it has a CR with no NUL before it and one more byte behind it |
| Request.NulStalls | src/client.cc:203-204 | Once a NUL stands before the first CR no later byte moves the parser |
| Request.MarkIsIgnored | src/client.cc:208-216 | Any byte but NUL and CR passes for the protocol's `*`; a NUL stalls, a CR is refused |
| Request.TrailerIsIgnored | src/client.cc:258-268 | The two bytes behind an argument are skipped whatever they are |
| Request.IsQuitIff | src/client.cc:427-430 | A command is QUIT iff its four letters are, in either case, with nothing or a NUL behind them |
| Encoding.CountLineMeans | src/client.cc:211-228 | A count line is taken iff it is the canonical decimal of a number up to 1048576, skipped if that is not positive, and refused otherwise |
| Encoding.LengthLineMeans | src/client.cc:239-255 | A length line is taken iff it begins with `$` and is the canonical decimal of a number from 0 to 536870912, and refused otherwise |
| Request.Client.ReadRequest | src/client.cc:25-37 | After a read the whole parser state is a function of all bytes received so far; the client is freed exactly when its backlog passes the limit |
| Request.Client.ProcessRequestBuffer | src/client.cc:182-193 | The loop ends and leaves the parser where taking every available piece leaves it |
| Request.Client.ParseRequestBuffer | src/client.cc:196-280 | A successful parse consumes at least two bytes and completes or skips a vector; no piece is lost or repeated; failure leaves nothing more to take, or a protocol error |
| Request.Client.ParseCount | src/client.cc:201-228 | The count line is taken as the machine takes it: missing, bad, skipped when not positive, or starting a vector |
| Request.Client.ParseArgument | src/client.cc:231-269 | One turn of the argument loop takes a length line and an argument as the machine does, or stops for want of bytes |
| Request.Client.ParseArgLength | src/client.cc:233-256 | The length line is taken, is missing, or fails with the machine's error |
| Request.Client.TakeArgument | src/client.cc:264-267 | The argument is exactly the announced bytes and two more bytes are skipped |
| Request.Client.ProcessCommand | src/client.cc:423-433 | The vector is handed over once; QUIT in any case stops the connection, other commands do not |
| Request.Client.ResetArgumentVector | src/client.cc:413-421 | The parser is back between requests |
| Encoding.SendRequest | client/go/kids.go:144-161 | The Go client writes the RESP encoding of the argument vector |
| Encoding.AgentLog | src/store/networkstore.cc:67-91 | NetworkStore appends the encoding of the vector LOG, topic, content to what is waiting, or nothing if it cannot be woken to send |
| Encoding.FeedArgs | src/client.cc:231-269 | Encoded arguments, of arbitrary bytes, are read back one for one whatever follows them |
| Encoding.FeedRequest | src/client.cc:196-280 | One encoded request is read back as its vector, and the parser is left at the byte behind it |
| Encoding.RoundTrip | src/client.cc:196-280 | Every list of vectors within the protocol limits comes back exactly, up to and including a QUIT, without a protocol error and without leftover |
| Encoding.RoundTripInChunks | src/client.cc:182-280 | The same however the bytes are cut into reads |
| Encoding.BacklogStaysSmall | src/client.cc:30-34 | A well-formed stream never fills the backlog past one argument, so its sender is never closed by the backlog limit |
| Reply.WholeIffAll | src/client.cc:282-298 | Of a frame put piece by piece, all arrives iff every piece was granted, and nothing iff none was |
| Reply.ReplyChannel.ReceiveMessage | src/client.cc:131-136 | The granted pieces are queued, or nothing if something is half sent or the client is closing; the stream stays a stream of whole frames iff the answers for the pieces do not differ |
| Reply.ReplyChannel.ReceivePatternMessage | src/client.cc:138-144 | The same for a pattern message frame |
| Reply.ReplyChannel.ConfirmSubscription | src/pubsub.cc:27-31 | The same for a subscription confirmation |
| Reply.ReplyChannel.ReplyNumber | src/client.cc:344-358 | An integer reply, its two preformatted values included, is queued whole or dropped whole |
| Reply.ReplyChannel.ReplyStatus | src/client.cc:318-329 | The same for a status line |
| Reply.ReplyChannel.ReplyError | src/client.cc:331-342 | The same for an error line |
| Reply.ReplyChannel.ProcessQuit | src/client.cc:460-463 | The answer to QUIT is the last frame: the channel takes no more |
| Reply.ReplyChannel.Put | src/client.cc:282-288 | A piece is appended iff it is granted, nothing is half sent and the client is not closing |
| Reply.ReplyChannel.PutBulk | src/client.cc:290-298 | A bulk string is appended in full or ignored by the same condition |
| Reply.ReplyChannel.PutLongLong | src/client.cc:344-358 | The canonical decimal between colon and line end is appended or ignored |
| Reply.ReplyChannel.SendReply | src/client.cc:40-85 | What the writes took is on the wire, byte for byte, and the stream stays one of whole frames; the client is freed if and only if a write failed for good, or it is closing and nothing is left to send |
| Reply.ReplyChannel.WriteSome | src/client.cc:46-68 | Exactly what the writes took moves from the buffer to the wire, and a buffer that is sent is emptied |
| Reply.ReplyChannel.WriteLoop | src/client.cc:46-68 | The write loop moves what the event takes and ends with an error if and only if the event's last write is one |
| Reply.TakenIs | src/client.cc:46-53 | An event moves something iff there is something and the socket takes some; all of it at once if the socket takes it |
| Reply.EventStops | src/client.cc:62-67 | An event ends behind the write that passes 65536 bytes, and goes on before |
| Reply.NoErrorNoFailure | src/client.cc:70-76 | Without an error no event fails |
| GoClient.ReceiveEncoded | client/go/kids.go:187-247 | The Go client reads each reply frame back as what it says, for arbitrary topic and content bytes, and is left at the next frame |
| GoClient.ClientSeesFrames | client/go/kids.go:163-167 | Frame for frame the client sees what the server's reply buffer accepted |
| GoClient.TornIsNoFrames | src/client.cc:131-136 | A message frame whose last piece alone is refused leaves bytes that no list of frames encodes to |
| GoClient.UserGets | client/go/kids.go:163-185 | The user of the Go client gets each publication with its topic, content and pattern, and nothing for any other reply |
| GoClient.MessageOnTheWire | src/client.cc:131-136 | A message frame, byte for byte |
| GoClient.ConfirmationOnTheWire | src/pubsub.cc:27-31 | A subscription confirmation, byte for byte |
| GoClient.LinesOnTheWire | src/client.cc:318-358 | Integer, status and error replies, byte for byte |
| Glob.MatchesIffTokenByToken | src/util.cc:91-208 | The recursive decision holds iff the subject can be cut into one segment per pattern token with every segment accepted by its token |
| Glob.StringMatchLen | src/util.cc:91-208 | The matcher, with its pointer motion, early exits and untried empty suffix, decides that semantics from any position, except on an empty rest whose terminator it overruns; its reads stay inside both strings |
| Glob.StringMatch | src/util.cc:210-212 | Right for every well-formed pattern on every non-empty subject; on any subject it is right if and only if the subject is non-empty or the overrun condition fails |
| Glob.MatchStar | src/util.cc:94-108 | Skipping stars and trying every non-empty suffix is enough to decide a star |
| Glob.MatchOne | src/util.cc:109-193 | One token other than a star takes a byte exactly when the semantics accepts it, and the pointer ends behind the token |
| Glob.MatchClass | src/util.cc:115-176 | A class is decided by its members, negation included, and the pointer is left before the next token, also in an unclosed class |
| Glob.MatchMember | src/util.cc:127-168 | One member (escape, range with ends in either order, byte) contributes exactly its meaning, in both case modes |
| Glob.OverrunIsWrong | src/util.cc:183-205 | Whenever the terminator is overrun the answer yes is wrong |
| Glob.OverrunWitness | src/util.cc:115-176 | The pattern `[^a]*` on the empty topic is such a case |
| Glob.EmptyRestNeedsStars | src/util.cc:197-203 | An empty rest is matched iff only stars are left, which is why the early exit is right |
| Glob.StarStar | src/util.cc:95-98 | A run of stars means one star |
| Patterns.LiteralsMatchIff | src/util.cc:183-190 | A pattern without special bytes matches exactly the subjects equal to it byte for byte, or with nocase when lowered |
| Patterns.MemberMatchesIff | src/util.cc:157-166 | `[x]` and `[^x]` take the one byte that is, or is not, equal to x, or with nocase when lowered |
| Patterns.RangeMatchesIff | src/util.cc:139-156 | `[a-b]` takes one byte between the ends in either order, as signed characters, or with nocase when lowered |
| Patterns.EscapedMemberMatchesIff | src/util.cc:128-132 | An escaped member is equal to its byte in either mode |
| Patterns.EscapedMatchesIff | src/util.cc:177-190 | An escape makes any byte plain, and stands for itself alone at the end |
| Patterns.WildMatches | src/util.cc:94-114 | `?` matches every one byte, `*` everything |
| Patterns.SignedIs | src/util.cc:140-142 | The value a pattern character has as a signed char |
| Patterns.WellFormedMostly | src/util.cc:127-138 | Patterns without a class or without a backslash are well-formed |
| Patterns.WellFormedWithoutFinalEscape | src/util.cc:127-138 | So is every pattern that does not end in a backslash |
| PubSub.AddTopicAgrees | src/pubsub.cc:9-25 | Subscribing adds one topic to one client and keeps both sides of the index in agreement |
| PubSub.AddPatternAgrees | src/pubsub.cc:53-60 | The same for a pattern |
| PubSub.DropTopicAgrees | src/pubsub.cc:100-117 | Unsubscribing removes one topic from one client, keeps the agreement, and leaves no empty topic list |
| PubSub.DropPatternAgrees | src/pubsub.cc:129-144 | The same for a pattern, of which only the first entry is erased |
| PubSub.OffersAreExact | src/worker.cc:172-189 | Publishing offers a client one frame iff it subscribed to the topic and one for each of its patterns that hits, and a deleted client nothing |
| PubSub.OffersInAll | src/worker.cc:172-189 | In all a client gets [topic subscribed] plus the number of its matching patterns |
| Worker.SubscribeManyAgrees | src/pubsub.cc:3-33 | A whole SUBSCRIBE adds exactly the named topics to exactly this client and keeps the agreement |
| Worker.PSubscribeManyAgrees | src/pubsub.cc:47-68 | The same for PSUBSCRIBE |
| Worker.TopicCountIsRightIff | src/pubsub.cc:90-101 | The count in an unsubscribe confirmation is the count left if and only if the topic was not subscribed |
| Worker.PatternCountIsRightIff | src/pubsub.cc:120-130 | The same for a pattern |
| Worker.UnsubscribeAgrees | src/pubsub.cc:90-118 | Unsubscribing one topic keeps the agreement and every other subscription |
| Worker.PUnsubscribeAgrees | src/pubsub.cc:120-145 | The same for a pattern |
| Worker.GoneAgrees | src/client.cc:113-129 | A client with nothing subscribed leaves no trace in the index when it is deleted |
| Worker.WorkerThread.GetNewConnection | src/worker.cc:118-138 | A new client is listed once and has no subscription; a failed notice read or creation changes nothing |
| Worker.WorkerThread.ProcessSubscribe | src/pubsub.cc:3-33 | Too few arguments change nothing; otherwise the index becomes that of the whole command and still agrees |
| Worker.WorkerThread.ProcessPSubscribe | src/pubsub.cc:47-68 | The same for patterns |
| Worker.WorkerThread.UnsubscribeTopic | src/pubsub.cc:90-118 | One topic of one client goes, with a confirmation if wanted, and the index agrees |
| Worker.WorkerThread.UnsubscribePattern | src/pubsub.cc:120-145 | The search erases this client's entry of this pattern and no other |
| Worker.WorkerThread.UnsubscribeAllTopics | src/pubsub.cc:35-39 | The loop ends with the client subscribed to no topic and everybody else unchanged; if wanted, each topic is confirmed once, with descending counts |
| Worker.WorkerThread.UnsubscribeAllPatterns | src/pubsub.cc:41-45 | The same for patterns |
| Worker.WorkerThread.ProcessUnSubscribe | src/pubsub.cc:70-78 | Exactly the named topics go, or all if none is named; each is confirmed in order with the count from before its removal; patterns stay; the index agrees |
| Worker.WorkerThread.ProcessPUnSubscribe | src/pubsub.cc:80-88 | The same for patterns |
| Worker.WorkerThread.DeleteClient | src/client.cc:113-129 | A destroyed client is in no topic list and no pattern entry |
| Worker.WorkerThread.FreeClient | src/worker.cc:227-234 | A listed client goes from everything, an unlisted one changes nothing |
| Worker.WorkerThread.FreeClientAsync | src/worker.cc:220-225 | The client moves to the closing list once; the index and all lists a publishing loop walks stay |
| Worker.WorkerThread.FreeClientsInAsyncFreeQueue | src/worker.cc:213-218 | Every closing client is deleted once; the clients that exist are then exactly the listed ones |
| Worker.WorkerThread.Handle | src/client.cc:423-446 | Each event a worker handles changes the table of who asked for what as the command says, and the index still agrees with it |
| Worker.WorkerThread.Serve | src/worker.cc:203-205 | After any run of connections, commands, closings and crons the index agrees with itself and is exactly the table those events amount to |
| Sessions.SubscribeConfirms | src/pubsub.cc:27-31 | A SUBSCRIBE is answered name for name, in order, with the number of subscriptions the client then has |
| Sessions.PSubscribeConfirms | src/pubsub.cc:62-66 | The same for patterns |
| Sessions.FirstConfirmation | src/pubsub.cc:13-31 | A fresh client is told 1, and 1 again for the same topic |
| Sessions.NewcomersAreLast | src/pubsub.cc:18-24 | A new subscriber comes last in its topic's list and in the list of patterns; the others keep their places |
| Sessions.AfterSubscribe | src/pubsub.cc:3-33 | Who wants which topic after a SUBSCRIBE |
| Sessions.AfterPSubscribe | src/pubsub.cc:47-68 | Who wants which pattern after a PSUBSCRIBE |
| Sessions.AfterUnSubscribe | src/pubsub.cc:70-78 | Who wants which topic after an UNSUBSCRIBE, with or without names |
| Sessions.AfterPUnSubscribe | src/pubsub.cc:80-88 | Who wants which pattern after a PUNSUBSCRIBE |
| Sessions.AfterConnect | src/worker.cc:118-138 | Who is there after a connection |
| Sessions.AfterClose | src/worker.cc:227-234 | Who is there, and wants what, after a client is closed |
| Sessions.AfterOverLimitAndCron | src/worker.cc:213-225 | A client over its limit keeps its subscriptions until the cron, which deletes exactly the clients put off |
| Worker.WorkerThread.PublishMessage | src/worker.cc:167-189 | The two loops offer the message exactly as the index and the matcher say, in list order |
| BufferStore.RefinesFifo | src/store/bufferstore.cc:27-146 | After any run from any bytes in any number of old buffer files, what can be read from those files plus what was added is, in order and each once: messages dealt with, the queue, and the files; the primary got exactly the delivered ones; exactly its refusals during transfers are gone; nothing else is lost when added topics and contents are non-empty; towards the primary nothing is buffered |
| BufferStore.RefinesFifoOf | src/store/bufferstore.cc:27-146 | The same account when it is known what messages the old files were made of, be they whole, cut or damaged |
| BufferStore.AddExplained | src/store/bufferstore.cc:70-94 | Adding a message puts it behind all others in whichever place it lands |
| BufferStore.CronExplained | src/store/bufferstore.cc:96-146 | A cron moves messages along without adding, dropping or reordering, except the one a transfer had refused |
| BufferStore.ExecExplained | src/store/bufferstore.cc:70-146 | The same over whole runs, fates once given being final |
| BufferStore.TransferOutcomes | src/store/bufferstore.cc:110-124 | The popped messages are those delivered and at most one refused, in queue order |
| BufferStore.ReadBack | src/store/bufferstore.cc:127-132 | Reading the oldest file back into the queue and deleting it keeps the account |
| BufferStore.CronProgress | src/store/bufferstore.cc:107-142 | With the primary accepting, a cron reaches the primary state or strictly decreases (files, queue) lexicographically, and nothing due to the primary is lost |
| BufferStore.TransferDrains | src/store/bufferstore.cc:107-142 | For any batch limit of at least one, finitely many crons end in the primary state with every queued and readable buffered message delivered in order |
| Recovery.EverythingArrives | src/store/bufferstore.cc:27-146 | End to end: what could be read from old buffer files and was added in any run without refusals during transfers reaches the primary, each message once, in order and nothing else, finitely many crons after it stays open |
| Recovery.EveryRunDrains | src/store/bufferstore.cc:96-146 | After any run whatsoever, finitely many crons with the primary open and accepting deliver everything queued or readable and lead back to it |
| Recovery.SwitchProgress | src/store/bufferstore.cc:99-105 | The first cron that finds the primary open while messages go to files begins the transfer and reads a file in the same call |
| Recovery.AddTowardsPrimary | src/store/bufferstore.cc:75-92 | Towards an open, accepting primary a message is delivered at once and nothing is buffered; otherwise it is alone in a new buffer file and the store has switched |
| Recovery.AddTowardsSecondary | src/store/bufferstore.cc:83-92 | In the other states a message goes behind what the last file holds, without asking the primary |
| Recovery.OpenedIs | src/store/bufferstore.cc:27-41 | Which state the store starts in, and that nothing left in files is lost |
| Recovery.ClosedCron | src/store/filestore.cc:137-143 | With the primary closed a cron only rotates, and only when that is due |
| Recovery.PrimaryCron | src/store/bufferstore.cc:96-146 | Towards the primary a cron changes nothing |
| Recovery.RefusalEndsTurn | src/store/bufferstore.cc:110-121 | A refusal ends the turn: what stands before is delivered, the refused message alone is dropped, the rest stays |
| BufferStore.TransferAll | src/store/bufferstore.cc:109-124 | An accepting primary gets the front of the queue up to the batch limit |
| Failover.FileStore.CloseFile | src/store/filestore.cc:79-95 | Closing removes the open file iff it is empty |
| Failover.FileStore.Open | src/store/filestore.cc:40-62 | Opening closes what was open and starts an empty file behind all others |
| Failover.FileStore.DoAddMessage | src/store/filestore.cc:97-102 | Both records are appended to the last file and no other file changes |
| Failover.FileStore.GetOldestMessages | src/store/filestore.cc:157-191 | The messages are the decoding of the oldest file |
| Failover.FileStore.DeleteOldestMessages | src/store/filestore.cc:193-196 | Exactly the oldest file goes |
| Failover.FileStore.Cron | src/store/filestore.cc:137-143 | An open store whose rotation is due starts a new file; otherwise nothing changes |
| Failover.BufferedStore.constructor | src/store/bufferstore.cc:4-45 | The opening state follows from the primary and from whether buffer files are left |
| Failover.BufferedStore.DoAddMessage | src/store/bufferstore.cc:70-94 | The object's fields move as the state machine's DoAdd |
| Failover.BufferedStore.DrainQueue | src/store/bufferstore.cc:108-124 | The bounded pop loop delivers what the transfer function delivers and leaves what it leaves |
| Failover.BufferedStore.ReadOldestFile | src/store/bufferstore.cc:126-132 | The queue is refilled from the oldest file, the open one closed first |
| Failover.BufferedStore.SwitchBack | src/store/bufferstore.cc:134-141 | The primary state is entered exactly when queue and files are empty |
| Failover.BufferedStore.Cron | src/store/bufferstore.cc:96-146 | The object's fields move as the state machine's DoCron |
| BufferFile.DecodeEncoded | src/store/filestore.cc:97-191 | Decoding an encoded list gives its longest prefix of messages with topic and content |
| BufferFile.FileRoundTripIff | src/store/filestore.cc:97-191 | A file gives back what was written to it if and only if every message has a topic and a content |
| BufferFile.UnreadableHides | src/store/filestore.cc:170-186 | Behind a message without topic or content nothing is read |
| BufferFile.DecodedIsReadable | src/store/filestore.cc:167-181 | Whatever bytes a file holds, every message read from it has a topic and a content |
| BufferFile.DecodeTruncated | src/store/filestore.cc:157-191 | A file cut anywhere gives exactly the messages wholly inside it, up to the first unreadable one |
| BufferFile.DecodeAfterCrash | src/store/filestore.cc:157-191 | The same for every byte prefix of an encoded list |
| BufferFile.WholeIsExact | src/store/filestore.cc:100-102 | The number of whole messages inside a byte bound is the largest number whose encoding fits |
| BufferFile.ReadRecordAt | src/filesystem.cc:191-200 | A record is read back iff it is whole and not empty |
| BufferFile.ReadMessageAt | src/store/filestore.cc:167-181 | A message is read back iff both of its records are whole and not empty |
| BufferFile.Le32RoundTrip | src/filesystem.cc:224-227 | The native 32-bit length read from a file is the one written |
| BufferFile.ShortRecord | src/filesystem.cc:224-229 | A record shorter than 256 bytes, byte for byte |
| BufferFile.File.Write | src/filesystem.cc:214-243 | A length and the bytes are appended |
| BufferFile.File.Read | src/filesystem.cc:191-200 | The next bytes come back iff they are all there and at least one was asked for |
| BufferFile.File.ReadMessages | src/store/filestore.cc:167-187 | The read loop ends with the decoding of the file |
| Buffer.OwnKeeps | src/buffer.cc:23-46 | A handle with a block of its own leaves all counts right and all other handles unchanged |
| Buffer.CopyKeeps | src/buffer.cc:66-72 | Sharing a block counts the new handle |
| Buffer.FreeKeeps | src/buffer.cc:74-83 | A block is freed exactly when its last handle leaves |
| Buffer.RewriteKeeps | src/buffer.cc:236-248 | A sole owner's write is seen through no other handle |
| Buffer.OnlyThisChanged | src/buffer.cc:66-94 | What keeps the other handles is an update of one value in a map from handles to values |
| Buffer.Buffers.FromBytes | src/buffer.cc:23-30 | A new value equal to the bytes, NUL-terminated |
| Buffer.Buffers.WithCapacity | src/buffer.cc:32-38 | A new empty value with the capacity asked for |
| Buffer.Buffers.CopyOf | src/buffer.cc:48-50 | A new value equal to the other |
| Buffer.Buffers.Destroy | src/buffer.cc:52-54 | The value goes; its block stays iff another handle is on it |
| Buffer.Buffers.Assign | src/buffer.cc:98-102 | One value becomes another's; all others stay |
| Buffer.Buffers.AssignCString | src/buffer.cc:104-125 | One value becomes the string up to its first NUL, in shared, reused or reallocated room |
| Buffer.Buffers.Clone | src/buffer.cc:87-94 | A sole owner is left alone; otherwise the handle gets a block of its own, with value, size and capacity as before |
| Buffer.Buffers.Append | src/buffer.cc:176-190 | One value grows by the bytes; all others stay, also those that shared the block |
| Buffer.Buffers.RemoveFront | src/buffer.cc:128-141 | One value loses its first bytes; all others stay; the terminator moves along; slack over half is given back |
| Buffer.Buffers.Clear | src/buffer.cc:143-155 | One value becomes empty in a block of its own; all others stay |
| Buffer.Buffers.Resize | src/buffer.cc:236-248 | The capacity is the size asked for; the value stays unless the size is below the handle's own |
| Buffer.Buffers.EmptyForReuse | src/client.cc:53-61 | A sent reply buffer is cut to its standard room if it is larger, and then empty; no other value changes |
| Buffer.Buffers.SetSize | src/buffer.h:41 | The size within the capacity is set and the data stays |
| Buffer.Buffers.Reserve | src/buffer.cc:230-234 | There is room for the size: the capacity stays if it is larger, and else is twice itself, in 32 bits, or the size; the value stays |
| Numbers.ParseInvertsDecimal | src/util.cc:28-89 | The parser succeeds with v iff the bytes are the canonical decimal of v and v fits 64 signed bits |
| Numbers.String2ll | src/util.cc:28-89 | One pass with an unsigned accumulator and its overflow guards computes exactly that |
| Numbers.ReadDigits | src/util.cc:63-73 | The guards let no wrapped value through and stop no value that fits |
| Numbers.TooBig | src/util.cc:64-69 | What the guards reject could not have been accepted with any further digits |
| Numbers.DigitsAreCanonical | src/util.cc:225-228 | Printed digits are canonical and denote the number |
| Numbers.CanonicalIsDigits | src/util.cc:52-61 | A canonical digit string is what printing its value gives |
| Numbers.Ll2string | src/util.cc:217-236 | The text is the canonical decimal, cut to the room there is, NUL-terminated, and nothing else in the array changes |
| Numbers.FillDigits | src/sds.c:404-409 | The backward loop leaves the digits at the end of the scratch array and stays inside it |
| Sds.QuotingRoundTrip | src/sds.c:415-598 | Unquoting the quoted forms of any byte strings, a space between them, gives back those strings |
| Sds.ArgsOfLine | src/sds.c:496-589 | The same from any position of a line that ends with the quoted forms |
| Sds.TokenOfRepr | src/sds.c:505-578 | A quoted argument in front of a space or the end is read back whole |
| Sds.TurnAtEscape | src/sds.c:508-541 | Each escaped byte is read back as that byte by one turn of the token loop |
| Sds.CatRepr | src/sds.c:415-438 | The quoted form is appended |
| Sds.SplitArgs | src/sds.c:490-598 | The argument loops compute the specified arguments, or nothing on unbalanced quotes |
| QuotingRules.EscapeForms | src/sds.c:418-434 | Which bytes stand for themselves between quotes, and how the others are written |
| QuotingRules.ReprIsPrintable | src/sds.c:415-438 | A quoted form is printable throughout and begins and ends with a double quote |
| QuotingRules.PlainIsUnchanged | src/sds.c:428-431 | Printable text without quotes and backslashes is unchanged between its quotes |
| QuotingRules.WordIsArgument | src/sds.c:557-575 | A plain word is one argument as it stands |
| QuotingRules.SingleQuotedIsArgument | src/sds.c:542-556 | Single-quoted text is taken byte for byte, except that an escaped single quote is one |
| QuotingRules.UnclosedIsRefused | src/sds.c:536-538 | A line with a quote that is not closed is refused |
| QuotingRules.JunkIsRefused | src/sds.c:531-535 | A line with anything but a blank behind a closing quote is refused |
| Sds.SplitIsExact | src/sds.c:344-381 | Joining the tokens with the separator gives the string back, and no token contains the separator |
| Sds.PiecesJoin | src/sds.c:357-379 | The pieces from any position join to the rest of the string |
| Sds.PiecesAreClean | src/sds.c:367-378 | No piece from any position contains the separator |
| Sds.SplitLen | src/sds.c:344-381 | The loop computes those tokens and every write is inside the slots array |
| Sds.MakeRoom | src/sds.c:358-366 | Doubling keeps the tokens and makes room for the next and the final one |
| EventPort.AddKeeps | deps/ae/ae_evport.c:147-176 | Adding interest keeps each registered descriptor in exactly one of kernel and pending table, with the loop's mask |
| EventPort.DelKeeps | deps/ae/ae_evport.c:178-236 | Removing interest keeps it, and a dissociation is always of an associated descriptor |
| EventPort.MaskBits | deps/ae/ae.c:116-131 | Adding interest sets the bits asked for, removing it clears them, and the others survive |
| EventPort.PollKeeps | deps/ae/ae_evport.c:238-311 | Polling keeps it, whichever registered descriptors fire |
| EventPort.ReassociatedIs | deps/ae/ae_evport.c:250-263 | After the first loop of a poll exactly the registered descriptors are associated, with their masks |
| EventPort.KernelIs | deps/ae/ae_evport.c:290-308 | After a poll exactly the registered descriptors that did not fire are associated |
| EventPort.EventLoop.constructor | deps/ae/ae.c:63-92 | A new loop is consistent, with nothing registered and maxfd -1 |
| EventPort.EventLoop.LookupPending | deps/ae/ae_evport.c:104-113 | The slot of the descriptor, or -1 iff it has none |
| EventPort.EventLoop.CreateFileEvent | deps/ae/ae.c:105-123 | The mask table gains the mask or, on failure, nothing changes; the loop stays consistent and maxfd the largest registered descriptor |
| EventPort.EventLoop.DeleteFileEvent | deps/ae/ae.c:125-141 | The mask table loses the mask; the loop stays consistent and maxfd the largest registered descriptor or -1 |
| EventPort.EventLoop.ApiDelEvent | deps/ae/ae_evport.c:178-236 | With the mask table already updated, the pending slot or the kernel follows, and what is dissociated was associated |
| EventPort.EventLoop.LowerMaxFd | deps/ae/ae.c:132-139 | The downward scan finds the largest registered descriptor or -1 |
| EventPort.EventLoop.Poll | deps/ae/ae_evport.c:238-311 | The in-place tables and the kernel end as the polled state |
| EventPort.EventLoop.Reassociate | deps/ae/ae_evport.c:250-265 | Every pending slot goes back to the kernel with its mask and is emptied |
| EventPort.EventLoop.Collect | deps/ae/ae_evport.c:290-308 | The fired descriptors wait in the pending table with the masks they were associated with |

## Left out

- Glob.StringMatch: patterns with a class that ends in a lone final backslash, and the empty subject with a second overrun, make the C code read past its strings; they are excluded by the precondition.
- Glob.StringMatchLen: the same two families.
- Glob.MatchStar: class texts that end in a lone final backslash.
- Glob.MatchOne: class texts that end in a lone final backslash.
- Glob.MatchClass: a class text that ends in a lone final backslash.
- Glob.MatchMember: a member that is a lone final backslash.
- Worker.WorkerThread.PublishMessage: subscribed patterns and topics on which the matcher would read past its strings.
- Failover.FileStore.Open: a file that cannot be opened.
- Failover.FileStore.DoAddMessage: failing writes and the branch for primary stores.
- Failover.BufferedStore.constructor: a secondary that cannot be opened.
- Failover.BufferedStore.DoAddMessage: the secondary's opens and writes succeed, so its own refusals (the drop at `src/store/bufferstore.cc:86-91`) do not occur.
- BufferStore.RefinesFifo: with added messages of empty topic or content it does not say which later messages of the same file share their fate; `BufferFile.DecodeEncoded` does.
- BufferFile.File.Write: failing writes, and the line end that primary files use.
- BufferFile.File.ReadOne: a negative length, which only a corrupted file can hold, is given up on; what `sdsnewlen` does with it is not modelled.
- Reply.ReplyChannel.Put: the output buffer limits are an unconstrained answer.
- Reply.ReplyChannel.PutLongLong: the smallest 64-bit integer, as in `Numbers.Ll2string`.
- Reply.ReplyChannel.ReplyNumber: the smallest 64-bit integer, likewise.
- Buffer.Buffers.Assign: self-assignment, which reads a freed count cell; the data array and its count cell are one block.
- Buffer.Buffers.Append: total sizes from 2^32 - 1 on, where the size counter wraps.
- Numbers.Ll2string: the smallest 64-bit integer, whose negation overflows.
- GoClient.ReceiveEncoded: the bulk reply of INFO is not among the frames; `Atoi` is modelled on canonical decimals, which is all the server writes.
- EventPort.EventLoop.Poll: re-association in poll and delete succeeds; the program aborts when it does not.
- Broker.ReclamationIsSafe: the head pointer and the two totals are updated in the step that ends a free pass; no other thread reads the head.
- Request.Client.ReadRequest: the error replies of the parser appear as the status they raise; the request half and the reply half of a client are separate classes.
- Request.Client.ProcessCommand: the dispatch to the command handlers; it appears as the events of `Worker.WorkerThread.Handle`, without command names.
- Sockets, epoll, kqueue, select, zmalloc, file-system calls, signals, daemonising, the logger: only their results appear.
- The configuration lexer and parser, configuration reload, thread start and stop, store destructors, re-opening a closed BufferStore.
- INFO text, `bytesToHuman`, `ParseTime`, `ParseSize`, statistics, dropped-message totals, `max_clients`.
- Multiple, Priority and Null stores, the primary branch of FileStore, and the reply side of NetworkStore: they would add only easy members.
- `Buffer::pop_front` and `blank`, the formatted appends, the hash.
- Ties between file creation times, stdio buffering, memory exhaustion.
- The Node client, C samples, packaging.
