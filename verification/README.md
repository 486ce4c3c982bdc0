# A verified model of xhttpcache

xhttpcache is an HTTP cache server with a Redis front end over RocksDB. This
project models, in Dafny, the parts of it whose correctness is decided by its
own code, and proves what they are for:

* the **expiry engine** (`Expiry`, `ExpiryTrace`, `ExpireServer`, `SortedSets`,
  `Entries`): a bounded in-memory window over a persistent index of deadlines, kept in step
  with it by every command, and drained by the expiry thread;
* the **scored rows** under it (`ByteSwap`, `RowCodec`, `ScoredRows`,
  `Database`): the row keys in RocksDB, their byte order, and the double index
  they maintain;
* the **JSON** reader and writer (`Json...`): exactly which texts are accepted
  and with what meaning, text round trip, total error recovery, exact
  integers, and the order on values;
* the **multipart** upload parser (`Multipart...`): independence of how the
  body is cut, when the size limit is hit, and recovery of the parts;
* the **MurmurHash2** family (`Murmur...`): the realigning, byte-wise and
  incremental forms against one definition, and its laws and values;
* the **sds** strings (`Sds...`): what argument splitting gives for every line,
  quoting against it, and splitting against joining;
* the **Redis protocol** parser and printer (`Resp`, `RespStreams`, `RespServer`):
  which commands are delivered from every stream of bytes;
* the **etag cache** (`Lru`, `EtagManager`).

`ByteOrder`, `Decimal`, `Search`, `Text` and `Wrappers` hold what several of
them need, and `Formats` spells out the external formats on small inputs. Each
component has a value-level specification and, where the C++
code works by changing things in place, a class or a method with loops that is
proved to compute exactly that specification. Bytes are characters; hashes and
byte swaps work on bit vectors. `dafny verify dfyconfig.toml` checks everything.

Assumptions. RocksDB is an ordered map from byte strings to byte strings whose
calls succeed. Each Redis command and each turn of the expiry loop is one atomic
step: the C++ code takes no lock there. Clock readings, hash values of entity
names and the C library's reading and printing of doubles are parameters.

## Where the code and its promise part

* A deadline below zero is never acted on once it is outside the window,
  because the index is scanned from score 0. Expiry is exact if and only if no
  such deadline is due (`Expiry.QuiesceIsExactIff`); one that is missed at every
  clock reading is `Expiry.NegativeDeadlineIsMissed`.
* `set k v ex t` tells the window about the deadline before it knows whether the
  index accepted it. For the empty key the index refuses, and the two stay in
  step if and only if the window is empty or ends before that deadline
  (`Expiry.EmptyKeyIff`). The Redis parser never delivers an empty argument,
  whatever it is sent (`Resp.NothingEmptyIsDelivered`), so no client can do this.
* `flushall` empties the store and leaves the window as it is, so the two agree
  afterwards if and only if the window was empty (`Expiry.FlushallIff`); states
  in which it is not are reached (`Expiry.FlushallWitness`).
* The one-byte length in a row key keeps rows apart exactly while set names have
  at most 256 bytes (`RowCodec.MemberRowsDistinctIff`), and the two rows of a
  member belong together after all operations exactly then
  (`ScoredRows.PairedIff`). Decoding needs names of at most 255
  (`RowCodec.DecodedIff`).
* A lone byte is left waiting by the Redis read callback, so a request whose
  last byte arrives by itself is not answered until more bytes come
  (`Resp.DeliveredIff`). An empty list or an empty argument is never delivered,
  nor anything behind it (`Resp.AllDeliveredIff`).
* The multipart parser opens a text field under its name if and only if the name
  has no quote, NUL or blank line in it and does not end in `filename=`
  (`MultipartNames.TextFieldIff`), and a file field with its file name if and
  only if both names are free of those and the field name has no such ending
  (`MultipartNames.FileFieldIff` has the one exception).
* The media type of a file is looked for behind the first `Content-Type: ` of the
  headers. Where the names do not hold that text, it is kept whole if and only
  if nothing follows it, and loses its last character otherwise; where they do,
  the word behind it there is taken for the media type
  (`MultipartHeaders.MediaTypeIff`, with the inputs
  `MultipartHeaders.MediaTypeWitness` and `MultipartHeaders.KeywordWitness`).
* The delimiter is looked for anywhere, where section 5.1.1 of RFC 2046 puts it
  at the start of a line. A content is kept whole if and only if no delimiter
  starts before the one that ends the part, or it is empty
  (`MultipartRecovery.ContentIff`); any content with the delimiter in it loses
  data (`MultipartRecovery.DelimiterInContent`).
* Splitting undoes joining exactly when no token makes the separator appear
  early and the list is not one empty token (`SdsSplit.SplitJoinIff`).
* An escaped high surrogate that no other escape follows is refused, where
  RFC 8259 allows it. A string is decoded if and only if there is none in it
  (`JsonConformance.StringIsReadIff`), and a document is accepted if and only if
  there is none in it and all its numbers can be read
  (`JsonAcceptance.DocumentIff`, `JsonAcceptance.LoneSurrogateWitness`).
* An object with a comma behind its last member is accepted if and only if that
  member's name is empty (`JsonAcceptance.TrailingCommaIff`,
  `JsonAcceptance.TrailingCommaIsAccepted`), and text behind the first value is
  not looked at, unless it continues a number
  (`JsonAcceptance.TextBehindIsIgnored`).
* Comments may stand wherever blanks may. Behind one that follows a member of an
  object any token but a closing brace or a malformed one is taken for the
  comma. With these two, the trailing comma and the number spellings below the
  grammar of `JsonSyntax` is complete: a text is accepted if and only if it
  starts with a readable one of it (`JsonSoundness.AcceptedIff`).
* As integers the JSON reader also takes numbers with leading zeros and a lone
  minus sign, which it reads as zero, and nothing else that RFC 8259 does not
  have (`JsonProperties.RfcIntegerIff`, `JsonProperties.LoneMinusIsZero`). Number
  characters in any other order are left to the C library's reading of doubles.
* A vertical tab or a form feed separates arguments of a command line and may
  follow a closing quote, but does not end an argument without quotes
  (`SdsLines.EveryLine`, `SdsLines.SplitIs`).
* The hit rate of the etag cache is an integer quotient: until the counters wrap,
  1 when every lookup hit and 0 otherwise (`EtagManager.Manager.GetHitRate`).

## Model

| member | source | states |
|---|---|---|
| `Expiry.RunKeepsInv` | src/xExpireManager.cpp:61-106 | after every run of set, set-ex, expire, del and expiry steps: each window entry has its index score, every tracked entry outside a non-empty window is no earlier than the latest one inside, the window holds at most 1000 entries, and `first_timeout` is no later than any tracked deadline |
| `Expiry.StartInv` | src/xExpireManager.cpp:14-20 | the invariant holds at start-up over whatever index is on disk |
| `Expiry.SetTTLKeepsInv` | src/xExpireManager.cpp:91-106 | recording a deadline in the index and telling the window keeps the invariant, evictions included |
| `Expiry.TrackedWindowFacts` | src/xExpireManager.cpp:95-103 | what the window may be after `SetTTL`: no foreign keys, right scores, and nothing earlier than its maximum was dropped |
| `Expiry.SetExKeepsInv` | src/xRedisServer.cpp:77-94 | the double `SetTTL` around the index write of `set ... ex` is harmless |
| `Expiry.ReloadKeepsInv` | src/xExpireManager.cpp:63-70 | refilling an empty window from the index keeps the invariant |
| `Expiry.FrontIsEarliest` | src/xExpireManager.cpp:72-75 | the front of the window is the earliest of all tracked deadlines, also those not in the window |
| `Expiry.ExpireLoopKeepsInv` | src/xExpireManager.cpp:61-84 | one expiry step keeps the invariant on every path |
| `Expiry.ExpireLoopProgress` | src/xExpireManager.cpp:48-54 | while a timeout has passed, each expiry step lowers a measure of the work left |
| `Expiry.ExpireLoopRemovesDue` | src/xExpireManager.cpp:72-83 | one step removes at most keys that are due, from rows and index alike, and leaves the other due keys due |
| `Expiry.QuiesceInSteps` | src/xExpireManager.cpp:48-54 | at a fixed clock the thread goes to sleep after finitely many steps |
| `Expiry.QuiesceRemovesDue` | src/xExpireManager.cpp:48-84 | when it sleeps, exactly the tracked keys whose deadline has passed are gone from rows and index, across all reloads, and the next timeout lies ahead |
| `Expiry.QuiesceIsExactIff` | src/xExpireManager.cpp:48-84 | the index loses exactly the expired keys if and only if no negative deadline outside the window is due |
| `Expiry.ExpiryIsExact` | src/xExpireManager.cpp:39-106 | from start-up, for every run with non-negative deadlines: exactly the expired keys disappear, no others |
| `ExpiryTrace.DeadlineIff` | src/xRedisServer.cpp:77-155 | after every sequence of commands and expiry steps a key has a deadline if and only if some earlier `set ... ex` or `expire` that took effect gave it that one (or it was there at the start) and nothing since replaced or expired it |
| `ExpiryTrace.ValueIff` | src/xRedisServer.cpp:73-119 | and a value if and only if some earlier `set` wrote that one and nothing since overwrote, deleted or expired it |
| `ExpiryTrace.RunOutIff` | src/xExpireManager.cpp:39-106 | the keys whose last scheduled deadline has passed are the expired ones of the state |
| `ExpiryTrace.ExpiryOnTrace` | src/xExpireManager.cpp:39-106 | from start-up, said of the commands alone: when the thread sleeps, a key has a value if and only if it was last written and its last scheduled deadline has not passed, and a deadline if and only if it was last scheduled and lies ahead |
| `Expiry.NegativeDeadlineIsMissed` | src/xDataBase.cpp:282-285 | a run after which an expired key stays, whatever the clock shows from 0 on |
| `Expiry.EmptyKeyIff` | src/xRedisServer.cpp:87-93 | `set` with a time to live on the empty key, whose index write is refused, keeps the invariant if and only if the window is empty or all its deadlines are earlier |
| `Expiry.FlushallIff` | src/xDataBase.cpp:321-340 | emptying the store keeps the invariant if and only if the window was empty |
| `Expiry.FlushallWitness` | src/xDataBase.cpp:321-340 | after one `set` with a deadline that lies ahead and one turn of the loop it breaks the invariant |
| `ExpireServer.ExpireManager.constructor` | src/xExpireManager.cpp:14-29 | a server over a sound store starts in the model's start state |
| `ExpireServer.ExpireManager.SetTTL` | src/xExpireManager.cpp:91-106 | window and timeout become what the model says, on the real sorted set |
| `ExpireServer.ExpireManager.ProcessSet` | src/xRedisServer.cpp:73-76 | `set` changes one value and no deadline |
| `ExpireServer.ExpireManager.ProcessDel` | src/xRedisServer.cpp:104-119 | `del` removes one value and keeps the deadline |
| `ExpireServer.ExpireManager.ProcessSetEx` | src/xRedisServer.cpp:77-101 | the store, window and timeout follow the model (whose effect on values and deadlines is `ExpiryTrace.DeadlineIff` and `ExpiryTrace.ValueIff`), and OK is replied exactly when the deadline was new |
| `ExpireServer.ExpireManager.ProcessExpire` | src/xRedisServer.cpp:121-155 | likewise for `expire`; 1 is replied exactly when the key exists and the deadline was new |
| `ExpireServer.ExpireManager.ExpireFront` | src/xExpireManager.cpp:79-81 | value, deadline rows and window entry of the front key go, everything else stays |
| `ExpireServer.ExpireManager.ExpireLoop` | src/xExpireManager.cpp:61-84 | the step on rows and sorted set is the model's step |
| `ExpireServer.ExpireManager.RunUntilQuiet` | src/xExpireManager.cpp:48-54 | the thread's loop ends in the model's quiet state |
| `ExpireServer.TextComparison` | src/xDataBase.cpp:349-351 | comparing printed scores is comparing scores |
| `ExpireServer.SoundAfterZset` | src/xDataBase.cpp:342-381 | writing a deadline changes that entry of the index and nothing else in the store |
| `ExpireServer.SoundAfterZdel` | src/xDataBase.cpp:398-423 | removing a deadline removes that entry and nothing else |
| `ExpireServer.SoundIndexIsValid` | src/xDataBase.cpp:342-347 | the index of a consistent store has no empty member and only int64 scores, so the engine may start over it |
| `SortedSets.ItemOrder` | common/sorted_set.h:49-52 | the order on items is a strict total order |
| `SortedSets.SizesAgree` | common/sorted_set.h:55-56 | the ordered set and the map always have the same size |
| `SortedSets.SortedSet.Add` | common/sorted_set.cpp:12-40 | set and map together are one map from key to score, updated at one key |
| `SortedSets.SortedSet.Remove` | common/sorted_set.cpp:42-56 | the key leaves both structures |
| `SortedSets.SortedSet.Front` | common/sorted_set.cpp:58-69 | the least entry by score and key |
| `SortedSets.SortedSet.Back` | common/sorted_set.cpp:71-82 | the greatest entry |
| `SortedSets.SortedSet.MaxScore` | common/sorted_set.cpp:84-89 | the score of the greatest entry, zero if there is none |
| `SortedSets.SortedSet.PopFront` | common/sorted_set.cpp:92-101 | exactly the least entry goes |
| `SortedSets.SortedSet.PopBack` | common/sorted_set.cpp:103-113 | exactly the greatest entry goes |
| `SortedSets.SortedSet.Size` | common/sorted_set.cpp:8-10 | the number of keys |
| `ByteSwap.SwapMirrors` | common/util.h:35-43 | the shifts and masks of `big_endian` reverse the eight bytes a word has in memory |
| `RowCodec.BigEndian64IsBigEndian` | common/util.h:39-47 | an encoded score lies in its row most significant byte first |
| `RowCodec.BigEndian64Involution` | common/util.h:39-47 | swapping the stored bytes once more gives the bytes of the score |
| `RowCodec.StoredScore` | common/util.h:46-47 | for every int64, decoding the stored bytes gives the score back |
| `RowCodec.DecodeInvertsEncode` | src/xDataBase.cpp:84-144 | decoding a score row gives back set name, member and score, for names of at most 255 bytes |
| `RowCodec.DecodedIff` | src/xDataBase.cpp:84-144 | and only for those |
| `RowCodec.ScoreRowOrder` | src/xDataBase.cpp:84-96 | byte order on score rows is the order on (score, member), for scores that are not negative |
| `RowCodec.UnsignedScoreRowOrder` | src/xDataBase.cpp:84-96 | for all scores it is the order on their unsigned patterns |
| `RowCodec.ScoreRowInjective` | src/xDataBase.cpp:84-96 | a score row determines name, score and member, for names of 1 to 256 bytes |
| `RowCodec.MemberRowInjective` | src/xDataBase.cpp:75-83 | a member row determines name and member, for names of 1 to 256 bytes |
| `RowCodec.RowKindsDisjoint` | src/xDataBase.cpp:67-96 | value rows, member rows and score rows never collide |
| `RowCodec.MemberRowsDistinctIff` | src/xDataBase.cpp:75-83 | member rows are distinct if and only if names are bounded by 256 bytes |
| `Formats.Rows` | src/xDataBase.cpp:67-96 | a value row, a member row and a score row, byte by byte |
| `ScoredRows.ApplyAllKeepsConsistent` | src/xDataBase.cpp:154-207 | after every sequence of Set, Del, Zset, Zdel and Flushall with set names of at most 256 bytes the member rows and score rows pair up |
| `ScoredRows.PairedIff` | src/xDataBase.cpp:342-423 | from the empty store they always pair up if and only if set names are bounded by 256 bytes |
| `ScoredRows.LongNameBreaksPairs` | src/xDataBase.cpp:75-83 | one Zset under a certain name of 257 bytes leaves another set a member row without a score row |
| `ScoredRows.ExactlyOneScoreRow` | src/xDataBase.cpp:342-423 | a member has a member row if and only if there is a score row for it, and there is never more than one |
| `ScoredRows.ReplaceKeepsPaired` | src/xDataBase.cpp:349-378 | replacing a score leaves no stale score row |
| `ScoredRows.ZdelKeepsPaired` | src/xDataBase.cpp:405-422 | deleting removes both rows |
| `ScoredRows.IndexAfterReplace` | src/xDataBase.cpp:342-381 | the scored set is updated at one member |
| `ScoredRows.IndexAfterZdel` | src/xDataBase.cpp:398-423 | the scored set loses one member |
| `ScoredRows.KvAfterReplace` | src/xDataBase.cpp:342-381 | index writes do not touch values |
| `ScoredRows.IndexAfterSet` | src/xDataBase.cpp:154-174 | value writes do not touch an index |
| `ScoredRows.ZgetAfterZset` | src/xDataBase.cpp:342-396 | the text written is the text found, and every other member of every set keeps its own |
| `ScoredRows.ZgetAfterZdel` | src/xDataBase.cpp:383-423 | nothing is found for a deleted member, and every other member keeps its text |
| `Database.Store.Get` | src/xDataBase.cpp:176-195 | the value last stored under the key, if any |
| `Database.Store.Zget` | src/xDataBase.cpp:383-396 | a text if and only if it is a member of the scored set, and then a text of its score there |
| `Database.Store.Zset` | src/xDataBase.cpp:342-381 | the rows after the call; success exactly when something was written |
| `Database.Store.Zdel` | src/xDataBase.cpp:398-423 | the rows after the call; failure for empty names and unknown members |
| `Database.Store.Flushall` | src/xDataBase.cpp:321-340 | the loop over all rows leaves none |
| `Database.Store.LoadExpirationKeys` | src/xDataBase.cpp:275-319 | the scan adds exactly the `limit` least index entries with score from 0 to below INT64_MAX |
| `Database.ScanStep` | src/xDataBase.cpp:300-317 | each row read is the least entry not yet loaded |
| `Entries.FirstEntriesAreFirst` | src/xDataBase.cpp:300-302 | the entries loaded precede all that are not, and are as many as asked for or all |
| `Decimal.Int64RoundTrip` | common/util.h:54-55 | a printed int64 is read back exactly |
| `JsonAcceptance.DocumentIff` | common/jsoncpp.cpp:288-327 | a document of the grammar (that of RFC 8259 with any blanks between its tokens and any spelling of its strings, and what the reader adds to it: comments, other separators behind them, a comma behind a last member without a name) is accepted if and only if no escaped high surrogate stands alone and every number can be read; then there is no error, it is used up and it is given its meaning, where of members with one name the last counts |
| `JsonAcceptance.RefusesText` | common/jsoncpp.cpp:329-400 | a text of the grammar with a lone surrogate or an unreadable number anywhere in it is refused, whatever follows |
| `JsonAcceptance.LoneSurrogateIsRefused` | common/jsoncpp.cpp:845-872 | every document that is one half of a surrogate pair in quotes is in the grammar and is refused |
| `JsonAcceptance.LoneSurrogateWitness` | common/jsoncpp.cpp:845-872 | one such document, with the escape of D800 |
| `JsonAcceptance.TextBehindIsIgnored` | common/jsoncpp.cpp:309-326 | for every text of the grammar behind blanks and comments, what follows (if it does not continue a number) changes neither verdict nor value nor errors |
| `JsonAcceptance.TrailingCommaIff` | common/jsoncpp.cpp:591-598 | for all members, with blanks and comments anywhere, an object with a comma behind the last one is accepted if and only if the last name means the empty string, and then it means the object without the comma |
| `JsonAcceptance.TrailingCommaIsAccepted` | common/jsoncpp.cpp:591-598 | documents with such a comma that are accepted |
| `JsonSoundness.AcceptedIff` | common/jsoncpp.cpp:288-400 | for every byte string: it is accepted if and only if it is blanks and comments, a readable text of the grammar and anything that does not continue a number; then its value is that text's meaning and there is no error, so no unclosed or misseparated text is accepted |
| `JsonSoundness.ValueBack` | common/jsoncpp.cpp:329-400 | whatever the value reader accepts is the text of a syntax tree with the value read |
| `JsonSoundness.ItemsBack` | common/jsoncpp.cpp:641-676 | whatever the item loop accepts is items separated by commas and a closing bracket, and the entries read are theirs |
| `JsonSoundness.MembersBack` | common/jsoncpp.cpp:586-639 | whatever the member loop accepts is named members with their separators and a closing brace, and the entries read are theirs |
| `JsonConformance.ReadsText` | common/jsoncpp.cpp:329-400 | a readable text in front of anything that does not continue a number is read as its meaning, and nothing more is consumed |
| `JsonConformance.ReadsItemsText` | common/jsoncpp.cpp:641-676 | the items of any array text are read behind any items before them |
| `JsonConformance.ReadsMembersText` | common/jsoncpp.cpp:586-639 | the members of any object text are read behind any members before them |
| `JsonConformance.StringIsReadIff` | common/jsoncpp.cpp:792-843 | every spelling of a string (plain, short escapes, `\u` escapes, surrogate pairs) is decoded if and only if each escaped high surrogate finds another escape to be joined with, and then to what it means |
| `JsonConformance.StringIsSkipped` | common/jsoncpp.cpp:574-584 | the scanner finds the closing quote whatever is escaped in front of it |
| `JsonConformance.SurrogateIff` | common/jsoncpp.cpp:845-872 | an escaped high surrogate is accepted if and only if another escape follows at once |
| `JsonRoundTrip.RoundTrip` | common/jsoncpp.cpp:3243-3296 | for every value tree without reals, parsing what is written succeeds without an error, uses up the text and gives the normal form of the tree |
| `JsonRoundTrip.ReadsWritten` | common/jsoncpp.cpp:329-400 | the same in front of any text that cannot continue a number |
| `JsonRoundTrip.TextIsWritten` | common/jsoncpp.cpp:3250-3296 | what the writer writes is a JSON text |
| `JsonRoundTrip.MeaningIsNormal` | common/jsoncpp.cpp:3250-3296 | and that text means the normal form of the value |
| `JsonRoundTrip.StringIsSpelled` | common/jsoncpp.cpp:3167-3227 | every string without NUL is quoted so that it means itself |
| `JsonRoundTrip.IntegerIsDecoded` | common/jsoncpp.cpp:688-734 | every integer from -2^63 to 2^64-1 is decoded exactly |
| `JsonProperties.NormalIsWritten` | common/jsoncpp.cpp:727-733 | the normal form is a fixed point and is written the same way |
| `JsonProperties.SameTextIff` | common/jsoncpp.cpp:3243-3296 | two values are written alike if and only if they have the same normal form |
| `JsonProperties.ReadIsWellFormed` | common/jsoncpp.cpp:329-400 | every document, accepted or not, yields a tree with 64-bit integers, C strings and no repeated key |
| `JsonErrors.ErrorsAreAtTokens` | common/jsoncpp.cpp:902-938 | when the document is cut into tokens from its start, every error recorded is at the end of one of them, and so is the place where reading stops |
| `JsonErrors.TokenIsInside` | common/jsoncpp.cpp:902-938 | and such a place is inside the document |
| `JsonMessages.BehindItems` | common/jsoncpp.cpp:653-675 | behind any items and a comma an array is read on as at its start, whatever follows |
| `JsonMessages.BehindMembers` | common/jsoncpp.cpp:586-638 | behind any members and a comma an object is read on with what follows, whatever it is |
| `JsonMessages.NoSeparator` | common/jsoncpp.cpp:661-672 | wherever in an array, a token other than a comma or a bracket behind an item gives the one error, that one of them is missing, at that token |
| `JsonMessages.NoName` | common/jsoncpp.cpp:591-638 | wherever in an object, a token other than a string where a member may start gives the one error, that a name is missing, at that token |
| `JsonMessages.NoColon` | common/jsoncpp.cpp:612-616 | likewise for a colon behind a name; a comment there is refused too |
| `JsonMessages.NoComma` | common/jsoncpp.cpp:624-630 | likewise for a comma or brace behind a member |
| `JsonMessages.NoValue` | common/jsoncpp.cpp:329-392 | a token that starts no value gives the one error, that a value is missing, at that token |
| `JsonMessages.NoNumber` | common/jsoncpp.cpp:746-780 | a number that cannot be read gives the one error, that it is not a number |
| `JsonMessages.WrongItem` | common/jsoncpp.cpp:653-659 | the error of an item is the error of the array, whatever items stand before it |
| `JsonMessages.WrongMember` | common/jsoncpp.cpp:617-622 | the error of a member's value is the error of the object |
| `JsonProperties.RfcIntegerIff` | common/jsoncpp.cpp:688-702 | of the tokens taken for integers, exactly a lone minus sign and those with leading zeros are not in RFC 8259 |
| `JsonProperties.IntegerIsRead` | common/jsoncpp.cpp:688-734 | each of them that fits 64 bits is accepted and read as the canonical text of its value |
| `JsonProperties.LoneMinusIsZero` | common/jsoncpp.cpp:688-734 | the document `-` is read as 0 |
| `JsonProperties.Utf8RoundTrip` | common/jsoncpp.cpp:100-126 | every code point is recovered from its bytes |
| `JsonProperties.SurrogateRoundTrip` | common/jsoncpp.cpp:845-872 | joining the two surrogates of a code point gives it back |
| `JsonReading.ReadValue` | common/jsoncpp.cpp:329-400 | reading ends, never goes back, and succeeds if and only if it reports no error |
| `JsonReading.ReadItems` | common/jsoncpp.cpp:653-675 | likewise for the items of an array, recovery included |
| `JsonReading.ReadMembers` | common/jsoncpp.cpp:586-639 | likewise for the members of an object |
| `JsonReading.Recover` | common/jsoncpp.cpp:912-923 | recovery ends inside the document |
| `JsonLexer.ReadToken` | common/jsoncpp.cpp:419-488 | every token but the end of the document moves the cursor; string tokens have both quotes and number tokens only number characters |
| `JsonReader.Reader.Parse` | common/jsoncpp.cpp:288-327 | for every document the cursor ends inside it, the stack holds exactly the root, and the verdict is true if and only if no error is recorded |
| `JsonReader.Reader.ReadValue` | common/jsoncpp.cpp:329-400 | only the innermost value, the cursor and the errors change, as the reading function says |
| `JsonReader.Reader.ReadObject` | common/jsoncpp.cpp:586-639 | the member loop, with its stack of values, computes the reading function on success and on every recovery path |
| `JsonReader.Reader.ReadArray` | common/jsoncpp.cpp:641-676 | likewise for the item loop |
| `JsonReader.Reader.ReadChild` | common/jsoncpp.cpp:617-620 | pushing, reading and popping a value restores the stack |
| `JsonReader.Reader.ReadToken` | common/jsoncpp.cpp:419-488 | the token found is the scanner function's, placed in the document |
| `JsonReader.Reader.ReadString` | common/jsoncpp.cpp:574-584 | the loop stops at the first unescaped quote |
| `JsonReader.Reader.ReadComment` | common/jsoncpp.cpp:511-533 | both comment forms end where the scanner function says |
| `JsonReader.Reader.Match` | common/jsoncpp.cpp:500-509 | the cursor moves over the whole word or not at all |
| `JsonReader.Reader.SkipSpaces` | common/jsoncpp.cpp:490-498 | exactly the blanks in front are skipped |
| `JsonReader.Reader.RecoverFromError` | common/jsoncpp.cpp:912-923 | recovery adds no errors and ends where the recovery function says |
| `JsonDecoder.AddDigits` | common/jsoncpp.cpp:703-726 | no intermediate value exceeds the limit, and the loop gives up exactly when the number does |
| `JsonDecoder.DecodeNumberToken` | common/jsoncpp.cpp:688-734 | the exact integer if it fits, a double otherwise |
| `JsonDecoder.DecodedIff` | common/jsoncpp.cpp:688-734 | an optionally signed digit string decodes to its value if and only if that fits 64 bits |
| `JsonDecoder.DecodeStringToken` | common/jsoncpp.cpp:792-843 | the loop over escapes decodes as the function does, errors included |
| `JsonDecoder.DecodeCodePoint` | common/jsoncpp.cpp:845-872 | a `\u` escape or surrogate pair, with its four error cases |
| `JsonDecoder.DecodeHex` | common/jsoncpp.cpp:874-900 | four hexadecimal digits read from the left |
| `JsonWriter.UIntToString` | common/jsoncpp.cpp:131-151 | the digits written backwards are the decimal text, within 21 places whatever the value |
| `JsonWriter.IntToText` | common/jsoncpp.cpp:3087-3098 | every int64, the least included, fits the 25-byte buffer with sign and NUL |
| `JsonWriter.UIntToText` | common/jsoncpp.cpp:3100-3106 | every uint64 fits the buffer |
| `JsonWriter.QuotedString` | common/jsoncpp.cpp:3167-3227 | the fast path and the escaping loop give the same quoted text |
| `JsonWriter.FastWriter.WriteDocument` | common/jsoncpp.cpp:3243-3248 | the document is the text of the value and a line end |
| `JsonWriter.FastWriter.WriteValue` | common/jsoncpp.cpp:3250-3296 | appends the text of the value and keeps what was there |
| `JsonWriter.FastWriter.WriteArray` | common/jsoncpp.cpp:3271-3280 | looking up each index in turn writes the items, null where there is none |
| `JsonWriter.FastWriter.WriteObject` | common/jsoncpp.cpp:3281-3294 | looking up each name in turn writes the members in order |
| `Formats.JsonWords` | common/jsoncpp.cpp:3250-3270 | the texts of null, the truth values and empty containers |
| `Formats.JsonArray` | common/jsoncpp.cpp:3271-3280 | the text of an array of two items |
| `Formats.JsonObject` | common/jsoncpp.cpp:3281-3294 | the text of an object of one member |
| `JsonEndToEnd.StoreAndLoad` | common/jsoncpp.cpp:3243-3248 | writer and reader together return the normal form of any real-free tree |
| `JsonValue.PutSorts` | common/jsoncpp.cpp:2468-2488 | inserting keeps the keys in order and adds one entry exactly when the key is new |
| `JsonValue.GetPut` | common/jsoncpp.cpp:2468-2488 | an insertion is seen under its key and under no other |
| `JsonValue.KeyOrder` | common/jsoncpp.cpp:1694-1704 | no key is less than itself, and of two different keys one is less |
| `JsonValue.KeyTransitive` | common/jsoncpp.cpp:1694-1704 | and the order on keys is transitive |
| `JsonOrder.Transitive` | common/jsoncpp.cpp:2007-2044 | `operator<` is transitive on nested values |
| `JsonOrder.ExactlyOne` | common/jsoncpp.cpp:2007-2050 | of any two values exactly one is smaller or they are equal |
| `JsonOrder.SameIsEqual` | common/jsoncpp.cpp:2052-2088 | `operator==` is equality of the trees |
| `JsonOrder.CompareIsSign` | common/jsoncpp.cpp:1999-2005 | `compare` is 0 if and only if `operator==` holds, and antisymmetric |
| `JsonOrder.ScalarsInOrder` | common/jsoncpp.cpp:2007-2025 | values of different types are ordered by type, scalars of one type by number, truth value or bytes |
| `JsonOrder.ContainersInOrder` | common/jsoncpp.cpp:2027-2033 | containers are ordered by size, and at equal size by the first entry in which they differ, key before value |
| `ByteOrder.LessIff` | common/jsoncpp.cpp:2022-2025 | bytes are ordered at their first difference, a prefix before what it begins |
| `Multipart.ChunkingIndependence` | common/Parser.cpp:56-134 | however a body of any length is cut into calls that never hit the size limit, fields, contents, state and leftover (or the error) are those of one call without a limit |
| `Multipart.LimitIff` | common/Parser.cpp:69-71 | the size limit is hit if and only if some call comes, before any other failure, with more bytes than there is room for behind those left over from the calls before |
| `Multipart.BufferWithinLimit` | common/Parser.cpp:69-71 | while nothing fails, the buffer never holds more than the limit |
| `Multipart.LongPieceIsRefused` | common/Parser.cpp:69-71 | a first call with more bytes than the limit fails as too long |
| `Multipart.ShortBodyFits` | common/Parser.cpp:69-71 | calls that bring no more than the limit together never hit it |
| `Multipart.TwoCalls` | common/Parser.cpp:56-110 | a call, then anything more, is everything at once, and a call leaves the parser with nothing it could still do |
| `Multipart.TurnProgress` | common/Parser.cpp:80-110 | each repeated turn shortens the buffer or lowers the rank of the state |
| `Multipart.EarlySendIsHarmless` | common/Parser.cpp:112-134 | content handed over before the delimiter is seen is never content that the delimiter would have kept back |
| `Multipart.DrainExtends` | common/Parser.cpp:80-110 | processing, then receiving more and processing again, is processing everything |
| `MultipartParser.Parser.AcceptSomeData` | common/Parser.cpp:56-78 | the class does what the state machine does, the size limit included |
| `MultipartParser.Parser.ProcessData` | common/Parser.cpp:80-110 | the loop ends and computes the machine's result |
| `MultipartParser.Parser.ProcessContentOfTheField` | common/Parser.cpp:112-134 | one content turn |
| `MultipartParser.Parser.WaitForHeadersEndAndParseThem` | common/Parser.cpp:136-154 | one header turn, with the first blank line and the header errors |
| `MultipartParser.Parser.ParseFieldHeaders` | common/Parser.cpp:164-220 | the field opened, or which of the four errors is raised |
| `MultipartParser.Parser.FindMimeType` | common/Parser.cpp:201-213 | the loop to the end of the media type |
| `Multipart.MimeTypeIs` | common/Parser.cpp:201-213 | in any headers: unless a keyword stands in front of its own, the media type is kept whole if and only if nothing follows it, and otherwise its last character goes; if one does, what stands behind that one is taken instead |
| `MultipartParser.Parser.BoundaryPositionInDataCollector` | common/Parser.cpp:240-260 | the first occurrence of the delimiter, or -1 |
| `MultipartParser.Parser.FindStartingBoundaryAndTruncData` | common/Parser.cpp:262-269 | everything up to the first delimiter is dropped |
| `MultipartRecovery.RenderedBodyIsRecovered` | common/Parser.cpp:56-134 | a rendered list of parts of any length, cut in any way that never hits the size limit, gives exactly the fields of the parts with identical contents, empty ones too, for all parts with plain names, one-word media types, no text name ending in `filename=` and no early delimiter |
| `MultipartHeaders.FieldIsSentIff` | common/Parser.cpp:164-215 | the field of a file part has the file name and media type that were sent if and only if the field name does not end in `filename=` (or the file name is what is then taken for it) and nothing follows the media type |
| `Formats.Headers` | common/Parser.cpp:164-215 | the header lines of a rendered part, around any names and media type |
| `MultipartRecovery.DistinctPartsAreAllThere` | common/Parser.cpp:179-180 | with distinct names every part is there |
| `MultipartNames.TextFieldIff` | common/Parser.cpp:136-188 | for every name, the header turn opens a text field of that name if and only if it has no quote, NUL or blank line and does not end in `filename=` |
| `MultipartNames.TextNameErrors` | common/Parser.cpp:136-188 | which error a name without a quote is refused with: a NUL or blank line hides the closing quote, the ending `filename=` asks for another |
| `MultipartNames.FileFieldIff` | common/Parser.cpp:136-199 | for all names and media types, the header turn opens a file field of that name with that file name if and only if both are plain, where a field name ending in `filename=` leaves only one file name that comes out right |
| `MultipartHeaders.TextHeaderParses` | common/Parser.cpp:164-188 | a quote-free text header handed to `_ParseHeaders` opens its field, or is refused exactly when the name ends in `filename=` |
| `MultipartHeaders.FileHeaderOpens` | common/Parser.cpp:164-215 | a file header, whatever its media type, opens a file field, with the file name unless the field name ends in `filename=` |
| `MultipartHeaders.FileNameIff` | common/Parser.cpp:182-199 | the file name `_ParseHeaders` finds is the one sent if and only if the field name does not end in `filename=` or the two cannot be told apart |
| `MultipartHeaders.FileHeaderParses` | common/Parser.cpp:164-215 | and with the media type found |
| `MultipartHeaders.MediaTypeIsKept` | common/Parser.cpp:201-213 | what is taken for the media type of a rendered file part, for all names: the word behind the keyword in the field name, in the file name, or where it belongs |
| `MultipartHeaders.MediaTypeIff` | common/Parser.cpp:201-213 | when that is the media type sent |
| `MultipartHeaders.KeywordWitness` | common/Parser.cpp:201-213 | a part with a keyword in its field name, whose media type is not found though nothing follows it |
| `MultipartHeaders.MediaTypeWitness` | common/Parser.cpp:201-213 | a header whose media type is cut short |
| `MultipartHeaders.HeadersEndIsFound` | common/Parser.cpp:137-139 | the blank line found is the one behind the headers |
| `MultipartRecovery.ContentOfPart` | common/Field.cpp:50-108 | the content of a part reaches its field unchanged |
| `MultipartRecovery.ContentIff` | common/Parser.cpp:112-134 | for every content, if and only if no delimiter starts before the one that ends the part or the content is empty |
| `MultipartRecovery.ContentIs` | common/Parser.cpp:112-134 | otherwise it is kept up to two bytes in front of the first delimiter |
| `MultipartRecovery.DelimiterInContent` | common/Parser.cpp:240-260 | a content with the delimiter anywhere in it is not kept whole |
| `MurmurHashes.MurmurHash2` | common/MurmurHash2.cpp:37-86 | the loop and the tail cases compute the definition |
| `MurmurHashes.MurmurHashNeutral2` | common/MurmurHash2.cpp:339-381 | the byte-wise form equals MurmurHash2 for every key and seed |
| `MurmurHashes.MurmurHashAligned2` | common/MurmurHash2.cpp:394-520 | the realigning form equals MurmurHash2 for every key, seed and alignment |
| `MurmurHashes.HashShifted` | common/MurmurHash2.cpp:403-483 | carrying bytes over from one aligned word to the next absorbs the key's own words |
| `MurmurHashes.NextWord` | common/MurmurHash2.cpp:428-441 | one turn of the realigning loop |
| `MurmurHashes.LeftOver` | common/MurmurHash2.cpp:443-483 | both short-tail branches |
| `MurmurIncremental.MurmurHash2A` | common/MurmurHash2.cpp:206-243 | the one-shot form computes the definition |
| `MurmurIncremental.CMurmurHash2A.Add` | common/MurmurHash2.cpp:273-290 | after any pieces the registers stand for their concatenation |
| `MurmurIncremental.CMurmurHash2A.MixTail` | common/MurmurHash2.cpp:309-324 | bytes moved into the tail register are absorbed in order |
| `MurmurIncremental.CMurmurHash2A.End` | common/MurmurHash2.cpp:292-303 | the result is MurmurHash2A of everything added |
| `MurmurIncremental.HashPieces` | common/MurmurHash2.cpp:261-331 | for every cutting of the key the incremental hash equals the one-shot hash |
| `MurmurLaws.SeedsNeverCollide` | common/MurmurHash2.cpp:37-86 | for every key, different seeds give different hashes |
| `MurmurLaws.WordsNeverCollide` | common/MurmurHash2.cpp:37-86 | keys that differ in one aligned word of four bytes have different hashes, whatever stands before and behind |
| `MurmurLaws.TailsNeverCollide` | common/MurmurHash2.cpp:37-86 | so have keys that differ in their last one to three bytes |
| `MurmurLaws.FourBytesNeverCollide` | common/MurmurHash2.cpp:37-86 | no two keys of four bytes have the same hash |
| `MurmurLaws.MixInjective` | common/MurmurHash2.cpp:57-62 | a mixing step loses nothing of the state |
| `MurmurLaws.MixInjectiveWord` | common/MurmurHash2.cpp:57-62 | nor of the word mixed in |
| `MurmurLaws.FinalInjective` | common/MurmurHash2.cpp:82-84 | the finalisation loses nothing |
| `MurmurLaws.SeedsNeverCollideA` | common/MurmurHash2.cpp:206-243 | different seeds give different MurmurHash2A hashes |
| `MurmurLaws.Hash2NoBytes` | common/MurmurHash2.cpp:37-86 | the value of MurmurHash2 on the empty key, seed 1 |
| `MurmurLaws.Hash2OneByte` | common/MurmurHash2.cpp:37-86 | the value of MurmurHash2 on the key `a`, seed 1 |
| `MurmurLaws.Hash2TwoBytes` | common/MurmurHash2.cpp:37-86 | the value of MurmurHash2 on the key `ab`, seed 1 |
| `MurmurLaws.Hash2ThreeBytes` | common/MurmurHash2.cpp:37-86 | the value of MurmurHash2 on the key `abc`, seed 1 |
| `MurmurLaws.Hash2FourBytes` | common/MurmurHash2.cpp:37-86 | the value of MurmurHash2 on the key `abcd`, seed 1 |
| `MurmurLaws.Hash2FiveBytes` | common/MurmurHash2.cpp:37-86 | the value of MurmurHash2 on the key `abcde`, seed 1 |
| `MurmurLaws.Hash2ANoBytes` | common/MurmurHash2.cpp:206-243 | the value of MurmurHash2A on the empty key, seed 1 |
| `MurmurLaws.Hash2AOneByte` | common/MurmurHash2.cpp:206-243 | the value of MurmurHash2A on the key `a`, seed 1 |
| `MurmurLaws.Hash2ATwoBytes` | common/MurmurHash2.cpp:206-243 | the value of MurmurHash2A on the key `ab`, seed 1 |
| `MurmurLaws.Hash2AThreeBytes` | common/MurmurHash2.cpp:206-243 | the value of MurmurHash2A on the key `abc`, seed 1 |
| `MurmurLaws.Hash2AFourBytes` | common/MurmurHash2.cpp:206-243 | the value of MurmurHash2A on the key `abcd`, seed 1 |
| `MurmurLaws.Hash2AFiveBytes` | common/MurmurHash2.cpp:206-243 | the value of MurmurHash2A on the key `abcde`, seed 1 |
| `SdsQuoting.QuotingRoundTrip` | common/sds.cpp:627-735 | any list of byte strings, quoted and joined by spaces, splits into the same list |
| `SdsQuoting.ReprRoundTrip` | common/sds.cpp:552-575 | any byte string, quoted, splits into exactly itself |
| `Formats.EscapedBytes` | common/sds.cpp:552-575 | which bytes are written as they are, with a letter or in hexadecimal |
| `SdsSplit.JoinSplit` | common/sds.cpp:470-517 | joining what was split gives the string back |
| `SdsSplit.TokensAreFree` | common/sds.cpp:483-505 | no token contains the separator |
| `SdsSplit.SplitJoinIff` | common/sds.cpp:774-783 | splitting what was joined gives the list back if and only if no token lets the separator appear early and the list is not one empty token |
| `SdsSplit.SplitLen` | common/sds.cpp:470-517 | the loop splits so, fails exactly for the empty separator, and never overflows its slots |
| `Sds.SdsString.MakeRoomFor` | common/sds.cpp:129-147 | enough room, the contents kept; if there was not enough, the room is twice the length needed below 1 MB and 1 MB more than it from there on |
| `Sds.SdsString.CatLen` | common/sds.cpp:237-249 | the bytes are appended |
| `Sds.SdsString.CatRepr` | common/sds.cpp:552-575 | the quoted form is appended |
| `Sds.JoinSds` | common/sds.cpp:774-783 | the loop joins |
| `Sds.NextToken` | common/sds.cpp:640-716 | the loop with its three quoting modes takes one token, or fails, as the automaton does |
| `Sds.SplitArguments` | common/sds.cpp:627-735 | the loops split as the automaton does, malformed quotes included |
| `SdsLines.SplitIff` | common/sds.cpp:627-735 | for every line: it falls into arguments without quotes, in double quotes and in single quotes, and is refused if and only if it ends in a quote that is not closed or not followed by a blank; otherwise all its arguments are given, in order |
| `SdsLines.SplitIs` | common/sds.cpp:627-735 | the answer for every line written from pieces, malformed ones included |
| `SdsLines.EveryLine` | common/sds.cpp:627-735 | every line is written from pieces |
| `SdsLines.WrittenListSplits` | common/sds.cpp:627-735 | a list written with any mixture of bare, single-quoted and `sdscatrepr` style splits into itself |
| `Resp.CuttingDoesNotMatter` | common/xRedisServerLib.cpp:132-179 | for every byte stream and every cutting, the same commands come out in the same order |
| `Resp.DrainExtends` | common/xRedisServerLib.cpp:132-179 | parsing, then receiving more and parsing again, is parsing everything |
| `Resp.RequestRoundTrip` | common/xRedisServerLib.cpp:457-472 | printed lists of non-empty strings, taken in any pieces, are delivered once, in order, with nothing left over |
| `Formats.Replies` | common/xRedisServerLib.cpp:457-472 | bulk and multi-bulk replies, byte by byte |
| `Resp.DeliveredIff` | common/xRedisServerLib.cpp:235-259 | of printed commands all are delivered if and only if the read callback holds no byte back, and all but the last otherwise |
| `Resp.BatchesAndHeld` | common/xRedisServerLib.cpp:235-252 | bytes taken and the byte held back are the bytes that arrived |
| `Resp.AllDeliveredIff` | common/xRedisServerLib.cpp:83-130 | printed commands, taken in any pieces, are delivered up to the first with an empty list or an empty argument: all if and only if there is none |
| `RespStreams.DeliveredExactly` | common/xRedisServerLib.cpp:83-179 | for every stream of bytes in any pieces: it is requests and a rest that starts with none, and exactly these requests are delivered, in order |
| `RespStreams.EveryStream` | common/xRedisServerLib.cpp:83-179 | every stream is requests and a rest that starts with none |
| `RespStreams.StreamIsTaken` | common/xRedisServerLib.cpp:83-179 | requests in front of any bytes are delivered, and the bytes behind are read as if they came first |
| `RespStreams.NoRequestIff` | common/xRedisServerLib.cpp:83-179 | nothing is delivered if and only if no request stands at the front |
| `Resp.EmptyArgumentStalls` | common/xRedisServerLib.cpp:101-104 | in front of an empty argument the parser never moves again |
| `Resp.NothingEmptyIsDelivered` | common/xRedisServerLib.cpp:83-179 | whatever bytes arrive, cut in any way, no command delivered is empty or has an empty argument |
| `Resp.PrintedLength` | common/xRedisServerLib.cpp:83-106 | a printed length is read back and its line consumed exactly |
| `RespServer.ParaseLength` | common/xRedisServerLib.cpp:83-106 | the loop over the 11-byte buffer reads the length, or overruns the buffer exactly where the model says |
| `RespServer.Connector.FreeArg` | common/xRedisServerLib.cpp:37-52 | unparsed bytes stay; between commands nothing is parsed, allocated or collected |
| `RespServer.Connector.ParaseData` | common/xRedisServerLib.cpp:108-130 | one argument is collected or nothing changes |
| `RespServer.Connector.ProcessCmd` | common/xRedisServerLib.cpp:132-179 | either one whole command is handed over or every usable byte has been used |
| `RespServer.Connector.ReadCallback` | common/xRedisServerLib.cpp:229-261 | the parser is run to its end over what was taken, and at most one byte is held back |
| `RespServer.Connector.Serve` | common/xRedisServerLib.cpp:229-261 | over a whole connection the handlers see the commands of the bytes taken, as if in one piece |
| `RespServer.Connector.SendBulkReply` | common/xRedisServerLib.cpp:457-463 | appends the printed string |
| `RespServer.Connector.SendMultiBulkReply` | common/xRedisServerLib.cpp:465-472 | the loop appends the printed list |
| `Lru.RunIsRecent` | src/xEtagManager.cpp:12-38 | after every run the list is the first `capacity` distinct keys of the reversed sequence of touches (every Set, and the Gets that hit) |
| `Lru.HitIff` | src/xEtagManager.cpp:28-38 | a key is held if and only if fewer than `capacity` distinct keys were touched after it |
| `Lru.LargerHitsToo` | src/xEtagManager.cpp:12-38 | for every trace a larger cache knows every key a smaller one knows |
| `EtagManager.EtagCache.Set` | src/xEtagManager.cpp:12-26 | list and map stay in step, no iterator dangles, and the keys are as the discipline says |
| `EtagManager.EtagCache.Get` | src/xEtagManager.cpp:28-38 | a hit exactly when the key is listed; a miss changes nothing |
| `EtagManager.ShardsAreIndependent` | src/xEtagManager.cpp:50-72 | each shard behaves as a cache of its own for the calls it is sent |
| `EtagManager.SameShardIff` | src/xEtagManager.cpp:50-72 | two keys share a shard if and only if they differ by a multiple of the number of shards, and the first keys go to shards of their own |
| `EtagManager.LookupIff` | src/xEtagManager.cpp:50-62 | after any history a lookup hits if and only if fewer than `capacity` distinct keys of its shard were touched since |
| `EtagManager.Manager.constructor` | src/xEtagManager.cpp:41-48 | the shards start empty and separate |
| `EtagManager.Manager.SetKey` | src/xEtagManager.cpp:64-72 | only the shard of the wrapped sum of hash and timestamp changes |
| `EtagManager.Manager.GetKey` | src/xEtagManager.cpp:50-62 | likewise, and lookups and hits are counted |
| `EtagManager.Manager.GetHitRate` | src/xEtagManager.h:76-79 | 1 when every lookup hit and 0 otherwise, until the counters wrap |

## Left out

- Database.Store.LoadExpirationKeys: for set names of 1 to 255 bytes, because longer ones are decoded wrongly (`RowCodec.DecodedIff`) and rows of 256-byte names fall among those of the empty one; the server scans one fixed short name.
- Thread interleaving inside a command or an expiry step: the code has no lock there, the model takes each as one step.
- `flushall` in runs of the expiry engine: it empties the store but not the window, so the invariant does not survive it.
- Overflow of the deadline, the clock plus the time to live in milliseconds: a deadline is an int64 parameter.
- Etag cache updates made by `Set` and `Get` of the store, the timestamp header of a stored value, and the 304 answers built on them.
- MurmurHash64A and MurmurHash64B: the hash of an entity name is a parameter of the etag manager.
- JSON reals beyond a parameter, comments as data, `StyledWriter`, `Path` and non-default reader features: library formatting or unused options.
- JSON null string pointers and arrays of more than 2^31 entries: no reader or setter in use makes them.
- JSON values under construction are a stack of values written back when popped, where the code keeps pointers into the tree.
- The check for a non-digit inside the digit loop of `decodeNumber`: number tokens hold none there.
- Uploads stored in files: only in-memory fields are modelled, and fields are values held by the parser.
- Redis lengths that overflow an `int`, negative lengths and overlong length lines: the model stops with a fault where the code leaves its buffers. Buffers of 2^31 bytes and more are not modelled.
- Replies longer than the 256-byte buffer of `NetPrintf`, and the command table.
- Overflow of the 32-bit length fields of sds strings.
- The release of the argument vector inside the request header branch of `ProcessCmd`: the connector's invariant shows there is none to release.
- libevent and evhtp handlers, sockets, timers, logging, configuration, base64, gzip and content types: plumbing or library calls.
