# Chat client algorithms, modelled and proved

This project models the self-contained algorithms and small protocols of the chat client
(a fork of Chatterino) and proves what they promise. `dafny verify dfyconfig.toml` checks it.

| files | what they model |
|---|---|
| `Wrappers`, `Sequences`, `Numerals`, `Utf16` | what several models share: optional values, facts about sequences, decimal numerals, 16-bit text units |
| `MessageLog`, `LimitedQueue` | the bounded message log: a ring of slots, the queue operations on it, and the unbounded log of which the queue shows the last `limit` items |
| `FillHistory`, `FillLaws` | inserting late history into a channel while other threads append |
| `RowIndex`, `SignalVector` | an observable vector and any number of table models that mirror it, with extra rows of their own |
| `Timeouts`, `TimeoutLaws` | stacking of timeout messages, in channels that evict and in sinks that keep everything |
| `RatelimitBucket` | the token bucket with its timers |
| `ImageUploader` | the upload queue with its lock, requests and pauses |
| `AddWords`, `AddWordsLaws` | splitting a message into text and Twitch emotes |
| `LinkParser`, `LinkLaws` | recognising links in words |
| `Similarity` | the longest-common-substring table behind the similarity filter |
| `Duration`, `FormatTime`, `DurationLaws` | reading and printing durations |
| `WindowLayout`, `LayoutLaws` | writing and reading split trees, and activating a channel in a layout |
| `CodepointSlice`, `TagString`, `Frames` | UTF-16 slicing, IRC tag unescaping, the animation clock |

## How the models are built

Code that changes state is modelled by classes and loops, and each such method is proved equal
to a function of its inputs or of the old state; the `...Laws` files (or the second half of a
file) prove what the program promises about those functions. Whole runs are folds of the step
functions over arbitrary event sequences, so a statement about `Run` is one about every run.

- A message pointer is modelled by a message value with its own `ptr` number (`FillHistory`) or by an
  object (`Timeouts`). Messages in a log are pairwise different pointers.
- `boost::circular_buffer` is modelled by `RingBuffer`: inserting into a full buffer drops the
  first item, and inserting at the beginning of a full buffer inserts nothing. `insertBefore`
  and `insertAfter` report whether the needle was found, also in that last case.
- Concurrent threads append between the atomic queue operations of a fill; the parameter `env`
  of `FillInMissingMessages` says what is appended where, so every interleaving is some `env`.
- A table model's `getRowFromItem` and `getItemFromRow` are parameters that satisfy
  `fromRow(toRow(x), x) == x`. `beforeInsert` keeps the proposed row, as the default does.
- Timer and network callbacks are steps. A timer fires at any time not before its due time.
- What the callback of a rate-limited item sends while it runs is part of the item, so callbacks that send again are
  covered; its timer starts when it has returned.
- `MessageBuffer` has an optional limit: with one it is a channel, without one a `VectorMessageSink`. A timeout is
  handled in one step.
- Emote occurrences have `start <= end`, as every place that makes them sees to.
- Known top level domains and the Unicode digit test of the link parser are parameters; `LinkLaws.Parts` needs of the
  latter only that `(` is no digit.
- JSON objects are lists of key and value pairs; the keys are an enumeration. The text form of a
  filter's UUID stands for the filter.

## Where the code and its descriptions differ

- The comment at `src/util/Helpers.cpp:235` says that input must start with a number. The code
  reads an empty first numeral as 0, and input of spaces only as the number 0; the model does the same.
- `DontStack` still merges two timeouts of the same origin; it only keeps an IRC copy that
  arrives after its PubSub copy (`TimeoutLaws.DeliveryOrder`).
- Nothing bounds the number of terms of a duration, so the sum of an accepted input can wrap
  (`DurationLaws.TooManyTerms`); `DurationLaws.ExactWhenItFits` says exactly when it does not.
- Not every timeout raises its user's count by one: an IRC copy that meets a PubSub entry is not counted unless
  stacking is off, a PubSub copy that meets a stacked IRC entry drops what that had counted, and the counter wraps at
  2^32. `TimeoutLaws.Lost` says how much is lost, and `TimeoutLaws.CountsOnce` that nothing else is.
- A row of a sorted vector stays where it is when it is edited, while the vector chooses the position. The edited model
  is out of step afterwards exactly when something else than copies of the item lies between the two
  (`SignalVector.SignalVector.SetData`).
- Only the low byte of the unit behind a backslash is compared, so a backslash in front of U+016E, say, reads as a
  line feed (`TagString.Unescaped`).

## Model

| member | source | states |
|---|---|---|
| `MessageLog.StepRefines` | src/messages/LimitedQueue.hpp:129-319 | one queue operation on the last `limit` items of a log of distinct items gives the last `limit` items of the log after that operation, also when the needle has left the window |
| `MessageLog.RunRefines` | src/messages/LimitedQueue.hpp:115-319 | after any run of pushes, inserts, replacements and clears with new items the queue holds exactly the last `limit` items of the unbounded log |
| `MessageLog.InsertRefines` | src/messages/LimitedQueue.hpp:277-319 | inserting next to a needle agrees with the unbounded log in all four cases: needle visible or evicted, buffer full or not, including the insert at the front of a full buffer |
| `MessageLog.LogStepKeepsDistinct` | src/messages/LimitedQueue.hpp:115-319 | operations that bring in new items keep the log free of repetitions |
| `MessageLog.LogStepAround` | src/messages/LimitedQueue.hpp:195-319 | around a needle that is there once, the item stands directly before it, directly behind it, or in its place; without the needle nothing changes |
| `MessageLog.LogStepWhole` | src/messages/LimitedQueue.hpp:115-237 | pushes add at one end in order, clearing leaves nothing, and replacing by position hits the item that stands there among the visible ones, or nothing |
| `LimitedQueue.RingBuffer.PushBack` | src/messages/LimitedQueue.hpp:148-155 | appending to the ring drops the first item when it is full |
| `LimitedQueue.RingBuffer.Insert` | src/messages/LimitedQueue.hpp:277-319 | shifting slots in the ring realises the insert contract at every position |
| `LimitedQueue.LimitedQueue.constructor` | src/messages/LimitedQueue.hpp:20-24 | a new queue is empty and has the given limit |
| `LimitedQueue.LimitedQueue.Clear` | src/messages/LimitedQueue.hpp:115-120 | empties the queue |
| `LimitedQueue.LimitedQueue.PushBack` | src/messages/LimitedQueue.hpp:129-155 | appends and returns the item that had to go, if the queue was full |
| `LimitedQueue.LimitedQueue.PushFront` | src/messages/LimitedQueue.hpp:167-185 | the items reported are exactly those now in front of the old contents, the suffix of the input that fits |
| `LimitedQueue.LimitedQueue.ReplaceItem` | src/messages/LimitedQueue.hpp:195-209 | replaces the first occurrence and returns its position, or -1 |
| `LimitedQueue.LimitedQueue.ReplaceItemAt` | src/messages/LimitedQueue.hpp:219-237 | replaces by position and returns the previous item |
| `LimitedQueue.LimitedQueue.ReplaceItemHint` | src/messages/LimitedQueue.hpp:247-266 | replaces one occurrence of the needle; on distinct items the hint makes no difference to the result |
| `LimitedQueue.LimitedQueue.InsertBefore` | src/messages/LimitedQueue.hpp:277-292 | inserts before the first occurrence and reports whether the needle was there |
| `LimitedQueue.LimitedQueue.InsertAfter` | src/messages/LimitedQueue.hpp:303-319 | inserts behind the first occurrence and reports whether the needle was there |
| `LimitedQueue.LimitedQueue.GetSnapshot` | src/messages/LimitedQueue.hpp:321-325 | returns the contents in order |
| `FillHistory.FillInMissingMessages` | src/common/Channel.cpp:169-254 | for every interleaving with appends the queue ends up showing the last items of: evicted messages, stable merge of snapshot and missing messages, everything appended meanwhile; the signal is sent just when some message of the batch has no id, or one that no non-system message of the snapshot carries |
| `FillHistory.FillStep` | src/common/Channel.cpp:207-246 | the insert the code performs for one message extends the stable merge by that message and keeps track of the last message |
| `FillHistory.MergeSnoc` | src/common/Channel.cpp:218-236 | a later message of the batch joins the merge directly before the first later existing message, behind all earlier ones of the batch |
| `FillHistory.PartialDistinct` | src/common/Channel.cpp:186-213 | at every moment of the fill the log holds no message twice |
| `FillLaws.FillsExactly` | src/common/Channel.cpp:189-216 | a message of the batch comes in just when it has no id or no non-system message of the snapshot carries its id; nothing else comes in and nothing gets lost |
| `FillLaws.MergeKeepsBoth` | src/common/Channel.cpp:169-254 | existing messages and filled messages each survive whole and in their own order |
| `FillLaws.MergeDecides` | src/common/Channel.cpp:218-245 | the exact order of every filled and every existing message: the filled one comes first just when the existing one is, or stands behind, the first later non-system message |
| `FillLaws.MergeOrdered` | src/common/Channel.cpp:218-245 | if the non-system messages of the snapshot and the batch are in time order, so is the result |
| `FillLaws.RefillIsNoop` | src/common/Channel.cpp:189-216 | filling in the same batch again changes nothing, if its messages have ids, are not system messages and fit |
| `RowIndex.ModelIndexInverse` | src/common/SignalVectorModel.hpp:495-516 | a vector index finds a plain row that leads back to it; an index past the end finds the end |
| `RowIndex.VectorIndexInverse` | src/common/SignalVectorModel.hpp:471-492 | a plain row leads to an index that finds the row again; a custom row leads to the vector's size |
| `RowIndex.MirrorInsert` | src/common/SignalVectorModel.hpp:39-60 | a row put where the handler puts it becomes the vector item of the event's index |
| `RowIndex.MirrorRemove` | src/common/SignalVectorModel.hpp:71-93 | the row the handler erases is the one that shows the event's index |
| `RowIndex.MirrorEdit` | src/common/SignalVectorModel.hpp:161-181 | editing a plain row changes just the item it shows |
| `RowIndex.MirrorIgnoresCustom` | src/common/SignalVectorModel.hpp:409-427 | custom rows are invisible to the vector wherever they are |
| `SignalVector.SignalVectorModel.GetVectorIndexFromModelIndex` | src/common/SignalVectorModel.hpp:471-492 | the counting loop computes the row's vector index |
| `SignalVector.SignalVectorModel.GetModelIndexFromVectorIndex` | src/common/SignalVectorModel.hpp:495-516 | the counting loop computes the row of a vector index |
| `SignalVector.SignalVectorModel.OnInserted` | src/common/SignalVectorModel.hpp:39-60 | the handler inserts the item into what the model shows; all old rows stay in order, and the new one stands directly in front of the plain row that showed the event's index, or at the end |
| `SignalVector.SignalVectorModel.OnRemoved` | src/common/SignalVectorModel.hpp:71-93 | the handler removes the item from what the model shows |
| `SignalVector.SignalVector.Attach` | src/common/SignalVectorModel.hpp:35-96 | a new model shows the whole vector, one plain row for each item in order, and all others still show it |
| `SignalVector.SignalVector.Insert` | src/common/SignalVector.hpp:71-102 | one item more at the announced position, the concurrent copy and all models but the caller in step, each with its new row where it belongs; a sorted vector chooses the position itself |
| `SignalVector.SignalVector.RemoveAt` | src/common/SignalVector.hpp:117-129 | one item less, the copy and all models but the caller in step |
| `SignalVector.SignalVector.RemoveFirstMatching` | src/common/SignalVector.hpp:131-151 | the first matching item goes, or nothing matches and nothing changes; all models but the caller in step |
| `SignalVector.SignalVector.SetData` | src/common/SignalVectorModel.hpp:143-189 | an edit through one model changes the item it shows; the vector and the edited model are settled for sorted and unsorted vectors, all others are in step, and the edited one just when only copies of the item lie between its row and the vector's choice; the guard on the row index never fires |
| `SignalVector.SignalVector.MoveRow` | src/common/SignalVectorModel.hpp:264-290 | the moved item is the one the source row shows, its new position is the translated destination, all models stay in step and move just the one row |
| `SignalVector.SignalVector.RemoveRow` | src/common/SignalVectorModel.hpp:292-307 | removes the item the row shows, all models stay in step |
| `SignalVector.SignalVector.InsertCustomRow` | src/common/SignalVectorModel.hpp:409-417 | all models stay in step when one gains a custom row |
| `SignalVector.SignalVector.RemoveCustomRow` | src/common/SignalVectorModel.hpp:419-427 | all models stay in step when one loses a custom row |
| `Timeouts.MessageBuffer.ScanAndReplace` | src/util/ChannelHelpers.hpp:40-108 | the backward scan replaces at most the entry it meets, and says whether to append |
| `Timeouts.MessageBuffer.DisableUserMessages` | src/util/ChannelHelpers.hpp:110-125 | exactly the user's eligible messages are disabled, in place |
| `Timeouts.MessageBuffer.AddOrReplaceTimeout` | src/util/ChannelHelpers.hpp:20-131 | the log afterwards as a function of the log before, for a channel with its limit and for a sink without one, with or without disabling the user's messages |
| `TimeoutLaws.MeetsTheCandidate` | src/util/ChannelHelpers.hpp:40-108 | the entry met is the last timeout of the user from the same source among the final 20, if from there to the end nothing is older than five seconds, nothing lifts a timeout of the user and, for the style that asks for it, the user has written nothing that is still undisabled; none is met just when there is no such entry |
| `TimeoutLaws.TouchesOneEntry` | src/util/ChannelHelpers.hpp:40-125 | every other entry keeps its content, and is disabled just when it was, or when disabling is on and it is an eligible message of the user |
| `TimeoutLaws.MetEntryBecomes` | src/util/ChannelHelpers.hpp:73-130 | the entry met is replaced by the PubSub copy, left alone, or replaced by the new timeout with the count one higher; the log gets longer just where the style is DontStack and an IRC copy meets a PubSub one |
| `TimeoutLaws.NoneMet` | src/util/ChannelHelpers.hpp:127-130 | a timeout that meets nothing is appended as it is |
| `TimeoutLaws.NothingBeyond` | src/util/ChannelHelpers.hpp:44-63 | no entry is met before one that is older than five seconds, lifts a timeout of the user, or, for that style, is an undisabled ordinary message of the user |
| `TimeoutLaws.StopsAtLast` | src/util/ChannelHelpers.hpp:44-63 | behind such an entry at the end of the log every timeout is appended |
| `TimeoutLaws.WriterIrrelevant` | src/util/ChannelHelpers.hpp:55-63 | under the two other styles it makes no difference who wrote a recent ordinary message or whether it is disabled |
| `TimeoutLaws.CountsOnce` | src/util/ChannelHelpers.hpp:73-107 | on any log, a timeout of either origin raises its user's total count by one less exactly what is lost (a stacked count replaced by a PubSub copy, an IRC copy swallowed, a counter that wraps); no other user's total changes |
| `TimeoutLaws.RunConserves` | src/util/ChannelHelpers.hpp:20-131 | over every run of IRC and PubSub timeouts and other messages, from any log, each user's total plus what was lost is the old total plus that user's timeouts |
| `TimeoutLaws.RunCounts` | src/util/ChannelHelpers.hpp:20-131 | a run of IRC timeouts and other messages loses nothing: each user's total grows by exactly that user's timeouts |
| `TimeoutLaws.TimeoutRefines` | src/util/ChannelHelpers.hpp:36-130 | in a channel of at least 20 messages that evicts, a timeout leaves exactly the last messages of what it would leave in the unbounded log |
| `TimeoutLaws.BoundedRunRefines` | src/common/Channel.cpp:115-126 | so does every run of timeouts and other messages |
| `TimeoutLaws.DeliveryOrder` | src/util/ChannelHelpers.hpp:73-107 | on every log, both delivery orders of the IRC and PubSub copies leave what the PubSub copy alone leaves, just when the style is not DontStack; both results are given for DontStack too |
| `TimeoutLaws.PairCountsOnce` | src/util/ChannelHelpers.hpp:73-107 | a timeout delivered in both copies, in either order, counts as its PubSub copy alone does |
| `RatelimitBucket.Bucket.SendItem` | src/util/RatelimitBucket.cpp:17-25 | queues the item and handles one if a token is left, also when called from inside a callback |
| `RatelimitBucket.Bucket.HandleNext` | src/util/RatelimitBucket.cpp:27-43 | spends a token on the first queued item, runs its callback, which may send more, and then starts its timer |
| `RatelimitBucket.Bucket.TimerFires` | src/util/RatelimitBucket.cpp:39-42 | gives the token back and handles one more |
| `RatelimitBucket.StepKeeps` | src/util/RatelimitBucket.cpp:17-43 | every step, with whatever its callbacks send, keeps: tokens and timers sum to the initial budget, a queued item means no token, every recent callback has its own timer pending |
| `RatelimitBucket.WindowBound` | src/util/RatelimitBucket.cpp:27-43 | if every callback sees few enough before it within one cooldown, so does every window anywhere |
| `RatelimitBucket.RateLimit` | src/util/RatelimitBucket.cpp:17-43 | over every run: tokens are conserved, callbacks come in sending order without loss or repetition, a waiting item has a timer to wake it, and no half-open window of one cooldown holds more callbacks than the budget |
| `RatelimitBucket.SentIsHistory` | src/util/RatelimitBucket.cpp:17-25 | no step changes what was sent before; an item that is sent comes next behind all of it |
| `RatelimitBucket.CallbackInOrder` | src/util/RatelimitBucket.cpp:36-37 | what one callback sends is sent in its order |
| `RatelimitBucket.FirstInFirstOut` | src/util/RatelimitBucket.cpp:17-43 | over every run, the items of the send events occur in their order among the callbacks made and the items that wait, and are all of them if no callback sends more |
| `RatelimitBucket.WhereItemsComeFrom` | src/util/RatelimitBucket.cpp:17-43 | over every run the items sent are exactly those sent from outside and those sent by the callbacks made |
| `ImageUploader.Uploader.UploadImages` | src/singletons/ImageUploader.cpp:379-399 | a free uploader takes the lock and sends the first image; a busy one does nothing; the queue is empty where the code asserts it |
| `ImageUploader.Uploader.HandleSuccessfulUpload` | src/singletons/ImageUploader.cpp:204-252 | releases the lock when done or when the editor is gone, else starts the pause |
| `ImageUploader.Uploader.HandleFailedUpload` | src/singletons/ImageUploader.cpp:168-202 | drops the rest of the batch and releases the lock |
| `ImageUploader.Uploader.HandleTimer` | src/singletons/ImageUploader.cpp:244-248 | sends the next image |
| `ImageUploader.StepKeeps` | src/singletons/ImageUploader.cpp:168-399 | every step keeps the invariant of lock, queue, requests and timers, and every callback brings the release of the lock nearer |
| `ImageUploader.EventLaw` | src/singletons/ImageUploader.cpp:168-399 | what every event does: a failure, a closed editor or the end of the batch frees the lock with an empty queue, otherwise a pause starts or the next image goes out |
| `ImageUploader.BatchCompletes` | src/singletons/ImageUploader.cpp:204-252 | a success that frees the lock with the editor open has sent the whole batch |
| `ImageUploader.ClosedBatchesStay` | src/singletons/ImageUploader.cpp:168-252 | over every run, a batch whose lock was released sends nothing more |
| `ImageUploader.LockIsReleased` | src/singletons/ImageUploader.cpp:204-252 | a run that keeps the lock throughout has fewer callbacks than twice the images left, and admits no second batch |
| `ImageUploader.Reachable` | src/singletons/ImageUploader.cpp:168-399 | in every reachable state the lock is held just when one request or one timer is outstanding, never both, and all requests so far are initial parts of the accepted batches in order |
| `AddWords.AddWords` | src/messages/MessageBuilder.cpp:2909-3003 | the loops terminate and emit, word by word, what the recursive definition says |
| `AddWords.AddWord` | src/messages/MessageBuilder.cpp:2925-3001 | the inner loop over one word, its cursor and its emote iterator |
| `AddWordsLaws.JoinOfSplit` | src/messages/MessageBuilder.cpp:2310 | the words are space-free and spell the content when joined |
| `AddWordsLaws.WordLaw` | src/messages/MessageBuilder.cpp:2925-3001 | for emotes inside words: the cursor ends behind the word, the elements spell the word, exactly its own emotes are emitted, each at the offset where it occurs with at most one non-empty text between two, and only an emote at the end of the word is followed by a space |
| `AddWordsLaws.ContentLaw` | src/messages/MessageBuilder.cpp:2909-3003 | for every content and every ordered, disjoint list of emotes inside words: one group of elements per word, spelling it from its own offset on, and every emote emitted once, in order and at its offset |
| `AddWordsLaws.EmitsPrefix` | src/messages/MessageBuilder.cpp:371-394 | for any list of occurrences, what is emitted is an initial part of the list |
| `AddWordsLaws.WordWithoutEmote` | src/messages/MessageBuilder.cpp:371-394 | while the next occurrence began before the cursor or reaches beyond the word, the word is one text and the occurrence waits |
| `LinkParser.Strip` | src/common/LinkParser.cpp:127-151 | strips exactly the leading and trailing ignored characters |
| `LinkParser.IsValidIpv4` | src/common/LinkParser.cpp:49-90 | accepts exactly four octets of one to three digits below 256, separated by single dots |
| `LinkParser.StartsWithPort` | src/common/LinkParser.cpp:98-114 | accepts exactly up to five digits, ended early only by `/`, `?` or `#` |
| `LinkParser.ScanHost` | src/common/LinkParser.cpp:202-255 | the host loop stops at the end of the longest run of domain characters and knows its dots |
| `LinkParser.FindHost` | src/common/LinkParser.cpp:177-264 | protocol and host of a stripped link |
| `LinkParser.ScanParentheses` | src/common/LinkParser.cpp:269-299 | finds the last parenthesis that closes to depth zero |
| `LinkParser.ParseLink` | src/common/LinkParser.cpp:167-312 | the whole parser as one function of the source |
| `LinkLaws.Grammar` | src/common/LinkParser.hpp:9-36 | a stripped text is accepted just when it is protocol, host and rest of the documented grammar, and the split is unique |
| `LinkLaws.HostAlone` | src/common/LinkParser.cpp:257-264 | a dotted host on its own is accepted just when it is an IPv4 address or the text behind its last dot is a known top level domain |
| `LinkLaws.AddressAccepted` | src/common/LinkParser.cpp:263 | every IPv4 address is a link, whatever the top level domains are |
| `LinkLaws.OctetMeans` | src/common/LinkParser.cpp:49-90 | an octet is one to three decimal digits, leading zeros allowed, for less than 256 |
| `LinkLaws.AddressIff` | src/common/LinkParser.cpp:49-90 | four printed numbers with dots are an address just when each is less than 256 |
| `LinkLaws.Characters` | src/common/LinkParser.cpp:116-161 | the characters stripped in front and behind, those that begin a rest, and those a host is made of |
| `LinkLaws.Tiles` | src/common/LinkParser.hpp:79-119 | prefix, link and suffix tile the source, protocol, host and rest the link, and only strippable characters are left out |
| `LinkLaws.Parts` | src/common/LinkParser.hpp:9-36 | the whole link, extended or not, is protocol, host and rest of the documented grammar |
| `LinkLaws.Extension` | src/common/LinkParser.cpp:266-302 | a link reaches over stripped characters exactly up to the last parenthesis of its rest that closes to depth zero |
| `LinkLaws.DepthIsSurplus` | src/common/LinkParser.cpp:286-299 | the nesting level is the largest surplus of opening parentheses of any part read last |
| `LinkLaws.Reparse` | src/common/LinkParser.cpp:167-312 | parsing the text of a link again gives the same protocol, host and rest with nothing around them |
| `Similarity.LongestMatch` | src/messages/MessageSimilarity.cpp:20-45 | the loops compute the maximum of the table of common suffix lengths |
| `Similarity.RelativeSimilarity` | src/messages/MessageSimilarity.cpp:16-57 | the ratio of that maximum to the longer text |
| `Similarity.LongestIsLongest` | src/messages/MessageSimilarity.cpp:20-45 | the maximum is the length of the longest common substring: a witness exists and nothing longer does |
| `Similarity.SimilarityMeans` | src/messages/MessageSimilarity.cpp:47-56 | similarity times the length of the longer text is the length of the longest common substring |
| `Similarity.SimilaritySymmetric` | src/messages/MessageSimilarity.cpp:16-57 | the order of the texts does not matter |
| `Similarity.SimilarityRange` | src/messages/MessageSimilarity.cpp:16-57 | between 0 and 1; 1 just for equal non-empty texts, 0 just when no character is shared |
| `Duration.SkipSpace` | src/util/Helpers.cpp:29-36 | the position before the next non-space |
| `Duration.FindUnitMultiplierToSec` | src/util/Helpers.cpp:52-124 | the multiplier of the unit at a position, and the position of its last character |
| `DurationLaws.UnitTable` | src/util/Helpers.cpp:38-124 | the units and their seconds: a short name, a long one, or its plural, and nothing else |
| `Duration.ParseDurationToSeconds` | src/util/Helpers.cpp:222-291 | the scan terminates although helpers move its position, and computes the sum of the terms modulo 64 bits, or -1 |
| `DurationLaws.TrimMeans` | src/util/Helpers.cpp:222-291 | only the spaces around the text are left out |
| `DurationLaws.Grammar` | src/util/Helpers.cpp:222-291 | a text is accepted with some terms just when it is made of numbers, units and spaces between them that stand for these terms; only the first number may be missing |
| `DurationLaws.ReadsNumber` | src/util/Helpers.cpp:244-245 | a printed number reads back, or as 0 from 2^32 on |
| `DurationLaws.ReadsModulo` | src/util/Helpers.cpp:222-291 | every accepted text is read modulo 2^64 as a signed number, every other one as -1 |
| `DurationLaws.ExactWhenItFits` | src/util/Helpers.cpp:222-291 | the result is the exact value just when that is below 2^63 |
| `DurationLaws.ExactUpTo828` | src/util/Helpers.cpp:222-291 | with units and at most 828 terms the result is the exact sum, so -1 means rejection |
| `DurationLaws.TooManyTerms` | src/util/Helpers.cpp:222-291 | from 829 terms on an accepted input can come out negative |
| `FormatTime.Format` | src/util/FormatTime.cpp:10-49 | prints the non-zero components in order |
| `DurationLaws.ComponentsAre` | src/util/FormatTime.cpp:22-49 | days, then hours below 24, minutes and seconds below 60, each left out when it is 0 |
| `DurationLaws.PrintedText` | src/util/FormatTime.cpp:10-49 | the printed text, with one space between two components |
| `DurationLaws.ParsePrinted` | src/util/Helpers.cpp:222-291 | any printed list of numbers with units reads back term by term |
| `DurationLaws.RoundTrip` | src/util/FormatTime.cpp:22-49 | for every positive 32-bit number of seconds, reading what is printed gives it back; nothing is printed for the others |
| `WindowLayout.EncodeChannel` | src/singletons/WindowManager.cpp:688-724 | under every key, the object holds just what identifies the channel: its type, and its name if there can be several of the type |
| `LayoutLaws.ChannelReadsBack` | src/common/WindowDescriptors.cpp:95-111 | the loader finds that type and name in the object, and neither an old name nor a server |
| `WindowLayout.EncodeNodeRecursively` | src/singletons/WindowManager.cpp:647-686 | the object written for a split tree |
| `LayoutLaws.WrittenFields` | src/singletons/WindowManager.cpp:647-735 | everything that is written for a node, key by key, with filters and children in order |
| `LayoutLaws.DescribeMeans` | src/common/WindowDescriptors.cpp:32-111 | the descriptor of a node has each of the node's fields, its channel, and its children in order |
| `LayoutLaws.NodeReadsBack` | src/common/WindowDescriptors.cpp:32-111 | loading the encoding of any split tree gives its shape, orientation, flex, channel, moderation mode and filters |
| `LayoutLaws.RootReadsBack` | src/common/WindowDescriptors.cpp:130-144 | so does loading it as the root of a tab |
| `LayoutLaws.ChannelSurvives` | src/singletons/WindowManager.cpp:737-772 | the loaded descriptor still stands for the channel that was written |
| `LayoutLaws.MissingFields` | src/common/WindowDescriptors.cpp:32-111 | what a missing field is read as |
| `LayoutLaws.OldName` | src/common/WindowDescriptors.cpp:95-111 | the older key for a channel's name goes before the newer one |
| `WindowLayout.Layout.SelectBest` | src/common/WindowDescriptors.cpp:273-339 | the loop deselects every tab and keeps the running best |
| `WindowLayout.Layout.ActivateOrAddChannel` | src/common/WindowDescriptors.cpp:238-340 | the layout afterwards, as a function of the layout before |
| `LayoutLaws.ScoreMeans` | src/common/WindowDescriptors.cpp:287-312 | the score is twice the number of splits and one for each filtered split of the channel; a tab holds the channel just when one of its splits shows it |
| `LayoutLaws.BestIsBest` | src/common/WindowDescriptors.cpp:273-324 | the running best is the first tab of least score among those with a split of the channel |
| `LayoutLaws.ActivateSelectsOne` | src/common/WindowDescriptors.cpp:280-339 | exactly one tab is selected: that one, or a new one at the end if no tab holds the channel |
| `LayoutLaws.ActivateLayout` | src/common/WindowDescriptors.cpp:238-340 | on a whole layout: only the main window changes, activating twice is activating once, and special names change nothing |
| `CodepointSlice.Slice` | src/util/Helpers.cpp:341-374 | the units between two code point boundaries, or nothing when the range is empty, negative or too long |
| `CodepointSlice.DecodeSlice` | src/util/Helpers.cpp:341-374 | the code points of the slice are the slice of the code points, for all text including unpaired surrogates |
| `CodepointSlice.DecodeEncoded` | src/util/Helpers.cpp:341-374 | the code points found are those the text was written with, surrogate pairs as one |
| `CodepointSlice.EveryTextIsEncoded` | src/util/Helpers.cpp:341-374 | every text, unpaired surrogates included, is written with exactly as many code points as are found |
| `TagString.ParseTagString` | src/util/IrcHelpers.hpp:9-60 | unescaping in place equals one recursive pass, so nothing is looked at twice |
| `TagString.EscapeTable` | src/util/IrcHelpers.hpp:15-58 | what each escape becomes, told by the low byte; of any other pair only the backslash goes |
| `TagString.EscapeNumbers` | src/util/IrcHelpers.hpp:15-58 | the five escapes of the specification, by number |
| `TagString.UnescapeEscape` | src/util/IrcHelpers.hpp:9-60 | any text survives the escape of the message tag specification |
| `TagString.EscapeUnescape` | src/util/IrcHelpers.hpp:9-60 | escaping again what was read gives the input back just when the input is a value of the specification |
| `Frames.FrameDuration` | src/messages/Image.cpp:204-213 | a frame is shown for its own delay from 20 ms on, for 20 ms if that is above 10 ms, and else for 100 ms |
| `Frames.Frames.ProcessOffset` | src/messages/Image.cpp:120-141 | the loop terminates for positive durations and settles the position |
| `Frames.Frames.Advance` | src/messages/Image.cpp:114-118 | one tick of 20 ms |
| `Frames.Clock` | src/messages/Image.cpp:114-141 | after any number of ticks of 20 ms the elapsed time is right modulo the total length, and the offset lies within the frame shown, above 0 after the first tick |

## Left out

- Real mutexes and the memory model: each locked queue operation is one atomic step.
- `LimitedQueue.get`, `first`, `last`, `find` and `rfind`: single reads and one-loop searches.
- `LimitedQueue` with limit 0: the ring is modelled for a limit of at least 1.
- Concurrent operations during a fill other than appends: the code is written to allow appends only.
- FillHistory.FillInMissingMessages: takes a batch in time order, which the code assumes; nothing is claimed for other batches.
- SignalVector.SignalVector.SetData: what a model's own hook does for an edited custom row (`customRowSetData`) is not modelled.
- SignalVector.SignalVector.MoveRow: moving a custom row throws in the program and is not modelled.
- Qt cells, roles, headers, drag and drop data and overridden `beforeInsert` hooks of the table models.
- The text of stacked timeout messages, and the stacking of clear-chat messages, whose flag shares its bit with another one.
- TimeoutLaws.RunCounts: claims the total as long as it stays below 2^32, since the program's counter has 32 bits; `TimeoutLaws.RunConserves` covers the rest.
- TimeoutLaws.TimeoutRefines: for channels of fewer than 20 messages nothing is claimed, since the scan would see more of the unbounded log.
- The flags that a `VectorMessageSink` adds to replacements, and signals and logging of `Channel::addMessage`.
- Message texts, link extraction and log file of the image uploader.
- Emoji and third-party emotes inside a text fragment, cheermotes, colours and the trailing spaces of text.
- Similarity.RelativeSimilarity: uses exact division where the program rounds to single precision, and leaves out which earlier messages are compared.
- Duration: non-ASCII spaces and digits.
- TagString.ParseTagString: text that is not an escape is read as the code reads it; a lone trailing backslash stays.
- Tab titles, window geometry and the emote popup when layouts are loaded, and the conversion of UUIDs to text.
- CodepointSlice.Slice: the slice is a value, not a view that shares the text's memory.
- Network, files, settings, themes and widgets.
