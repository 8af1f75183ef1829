# Gopherdis, verified

A Dafny model of the data structures, encodings and protocols of gopherdis, a Redis-compatible
server in Go, with proofs of what each of them is for. `dafny verify dfyconfig.toml` checks all of it.

The model keeps the program's own form. What the program updates in place is a class with fields
(skip list, stream, listpack, quicklist, ring buffer, sketch, replication manager); loops are loops with
invariants; pure computations are functions. Every operation is proved against a specification that
does not mention how it works: a sorted listing, a map, a sequence, a set, a bit string, a grammar, a
command stream. The main results are about all inputs and all runs:

- **Sorted sets.** `SkipList.dfy`, `ZSet.dfy`: after any run with any random heights every level of the
  skip list is a sorted sublist with exact spans, and the answers are those of the sorted listing.
- **Compact encodings.** `Listpack.dfy`, `ZSetView.dfy`, `HashView.dfy`, `ListView.dfy`, `SetView.dfy`,
  `IntSet.dfy`, `Quicklist.dfy`, `Dict.dfy`, `Pairs.dfy`, `EncodedSet.dfy`, `EncodedList.dfy`, `EncodedPairs.dfy`:
  whatever thresholds each step finds, a collection behind its encodings holds a plain listing, map, sequence or
  set, and promotion changes nothing. Building a collection in one go and entry by entry ends in the same
  encoding: for hashes and sorted sets always, for sets and lists exactly under a stated condition.
- **Snapshots.** `Lzf.dfy`, `Crc64.dfy`, `RdbFormat.dfy`, `RdbModel.dfy`, `RdbParse.dfy`, `Rdb.dfy`: compression round
  trips, the loader does with any bytes what a functional reading of the format says,
  the table-driven checksum is the bitwise one, and loading what was saved rebuilds the keyspace if and only
  if every deadline is loadable.
- **Streams.** `StreamLog.dfy`, `Stream.dfy`, `Groups.dfy`: strictly increasing visible entries, exact trims
  and ranges in spite of chunk skipping, and the split of deliveries into pending and acknowledged.
- **Glob patterns.** `Glob.dfy`: the backtracking matcher with its shared skip flag is the declarative match
  up to the nesting limit, and makes linearly many calls.
- **Optimistic locking.** `Watch.dfy`: gated and reclaimed version counters give EXEC the verdict counters
  that never stop would give.
- **Log and replication.** `Resp.dfy`, `Replication.dfy`, `Fanout.dfy`, `Propagate.dfy`: any cut of a log
  replays exactly the whole commands before it; every replica sees a gap-free piece of one stream; the
  propagated form of any command with a deadline means the same later, if and only if a condition on its
  numbers, the old entry and the clock holds.
- **Algorithms.** `Lcs.dfy`, `Hll.dfy`: the longest common subsequence and where it lies; HyperLogLog
  registers as a function of the set of elements, and merging as union.

Where a property one would expect does not hold of the code, the code is modelled as it is, a lemma shows a
concrete case, and another states exactly when the property holds: the rank of the empty member, the backward
range after a restart, snapshot deadlines beyond 292 years, patterns beyond the nesting limit, narrow and nearly
full listpacks, repeated members, scores written in two ways, and the propagation of deadlines that are late, zero,
too far off or several, and of commands that were turned down. Four comments in the source say more than the code
does and are not followed: the one on `HandlePSync` promises that no write is both in the snapshot and in the queue,
but a command runs before it is fed to the stream; the one on `matchBytes` says the skip flag changes the answer, but
only the nesting limit does; the one in `object/encoded.go` says that the builders pick the encoding the commands
would, but sets and lists can differ; the one on `CRC64` says that it matches the checksum of Redis, but the polynomial
is not reversed as its table would need, so the two differ.

`Base.dfy`, `Decimal.dfy`, `Windows.dfy` and `SortedElements.dfy` hold the shared vocabulary. Bytes are integers
below 256 except where the program shifts and masks them, which is done on bit vectors (`Crc64.dfy`,
`Hll.dfy`). 64-bit wrap-around is written out where it can be seen. Scores are reals. Clocks, random draws,
hashes, the printing and parsing of scores and the floating-point estimate of a sketch are parameters, so
the results hold for any of them. Configured thresholds are parameters of every call.

## Model

| member | source | states |
|---|---|---|
| SkipList.SkipList.Insert | datastruct/skiplist/skiplist.go:70-126 | for any drawn height the node enters at its place in (score, member) order; every live level is again a sorted sublist with exact spans, and the backward chain, tail, length and level are right |
| SkipList.SkipList.Search | datastruct/skiplist/skiplist.go:74-89 | the descent stops on every level at the last node below the element and counts the exact number of nodes passed |
| SkipList.SkipList.Delete | datastruct/skiplist/skiplist.go:148-166 | reports whether the element was there; removes exactly that node and otherwise changes nothing |
| SkipList.SkipList.DeleteNode | datastruct/skiplist/skiplist.go:128-146 | spans, links, backward links, tail, length and level are those of the list without the node |
| SkipList.LevelInserted | datastruct/skiplist/skiplist.go:101-112 | the recomputed spans of one level, including the span of a last link, describe the longer list exactly |
| SkipList.LevelRemoved | datastruct/skiplist/skiplist.go:129-135 | the spans of one level after an unlink describe the shorter list exactly |
| SkipList.SkipList.GetRank | datastruct/skiplist/skiplist.go:169-184 | the position of the element; zero exactly when it is absent or is an empty member hidden behind the header |
| SkipList.SkipList.WalkSpans | datastruct/skiplist/skiplist.go:191-194 | one level is followed as far as its spans stay within the rank, so the next node on it lies beyond or there is none |
| SkipList.SkipList.GetElementByRank | datastruct/skiplist/skiplist.go:187-200 | the node at the position, none beyond the end |
| SortedElements.EnumerationUnique | datastruct/skiplist/skiplist.go:304-357 | a map has one sorted listing, so structures that list the same map answer every positional query alike |
| Base.BytesLessIff | datastruct/skiplist/skiplist.go:82-84 | members compare as Go strings do: where they part, the one that ends or has the smaller byte is less |
| SortedElements.ListingOrder | datastruct/skiplist/skiplist.go:79-86 | a listing goes by ascending score, and among equal scores by member in that order |
| ZSet.RandomLevel | datastruct/skiplist/skiplist.go:59-68 | a height between 1 and 32 |
| ZSet.ZSet.Add | datastruct/skiplist/skiplist.go:232-250 | the score map is updated, the flags say new or changed, the skip list lists the new map in order |
| ZSet.ZSet.Remove | datastruct/skiplist/skiplist.go:265-279 | the member is gone from both structures; the flag says whether it was there |
| ZSet.ZSet.GetScore | datastruct/skiplist/skiplist.go:253-262 | agrees with the sorted listing, both ways |
| ZSet.ZSet.Rank | datastruct/skiplist/skiplist.go:282-301 | found exactly when present and not hidden; then the index from the asked-for end |
| ZSet.ZSet.Range | datastruct/skiplist/skiplist.go:304-357 | the window of the listing, forward or reversed, for all indices including negative ones |
| ZSet.Run | datastruct/skiplist/skiplist.go:202-357 | after any run of additions and removals, whatever heights are drawn, the listing is the sorted listing of the replayed map |
| ZSet.TieByBytes | datastruct/skiplist/skiplist.go:79-86 | two members of one score, added in any order with any heights, are listed by their bytes |
| ZSet.EmptyMemberHidden | datastruct/skiplist/skiplist.go:178-181 | a sorted set built by two additions that holds the empty member and reports no rank for it |
| Lzf.DecodeConcat | rdb/lzf/lzf.go:128-189 | decoding is compositional over the token stream |
| Lzf.RepeatIsBackCopy | rdb/lzf/lzf.go:173-179 | copying a match byte by byte is right even when the reference overlaps what it writes |
| Lzf.DecodeRefBytes | rdb/lzf/lzf.go:60-72 | the two- and three-byte forms of a reference decode to its length and distance |
| Lzf.FindMatchLen | rdb/lzf/match_fallback.go:6-12 | the longest common run within the limit |
| Lzf.Lookup | rdb/lzf/lzf.go:42-47 | a position is used exactly when it is near enough and its three bytes recur; the table remembers the new position |
| Lzf.Round | rdb/lzf/lzf.go:41-97 | one round keeps the output a decodable prefix with an open run at its end |
| Lzf.Compress | rdb/lzf/lzf.go:20-125 | success means a strictly shorter output that decodes to exactly the input; input below 20 bytes is refused and a uniform input of 20 bytes or more always succeeds |
| Lzf.Decompress | rdb/lzf/lzf.go:128-189 | succeeds exactly on streams that decode to the expected length, with that value, never writing outside the buffer |
| Lzf.RoundTrip | rdb/lzf/lzf.go:20-189 | decompressing what was compressed, with the original length, gives the input back |
| Crc64.TableStep | rdb/crc64.go:23-28 | the table lookup step is eight single-bit division steps |
| Crc64.InitTable | rdb/crc64.go:8-20 | entry i is the remainder of the byte i |
| Crc64.Update | rdb/crc64.go:23-28 | the table-driven loop computes the bit-by-bit checksum |
| Crc64.CrcConcat | rdb/crc64.go:23-28 | checksumming in pieces is checksumming the whole |
| Crc64.CheckValue | rdb/crc64.go:4-28 | the checksum of the digits 1 to 9, which pins the polynomial; it is not the check value published for the checksum of Redis |
| RdbFormat.LenRoundTrip | rdb/encode.go:80-104 | all four length forms read back to the number and use exactly their bytes |
| RdbFormat.StringReads | rdb/encode.go:107-128 | a string written raw or compressed reads back, whatever follows |
| RdbFormat.LittleEndian | rdb/encode.go:143-144 | byte i of a fixed-width number counts multiples of 256 to the power i |
| RdbFormat.BigEndian | rdb/encode.go:93-102 | in a length the highest byte comes first |
| RdbFormat.LengthBytes | rdb/encode.go:80-104 | the bytes of each length form |
| RdbFormat.IntegerReads | rdb/decode.go:119-138 | every signed number of 1, 2 or 4 bytes reads as its decimal text, whatever follows |
| RdbFormat.MinusOneReads | rdb/decode.go:119-125 | the bytes C0 FF read as -1 |
| RdbModel.DeadlineExact | rdb/decode.go:337-341 | the deadline survives the nanosecond detour if and only if less than about 292 years remain |
| RdbModel.LoadRebuilds | rdb/decode.go:335-347 | folding the records of entries with distinct keys restores every key whose deadline has not passed, with its value and the deadline the duration arithmetic gives |
| RdbModel.KeptIffLoadable | rdb/decode.go:335-345 | a deadline comes back if and only if it is none, or lies ahead by at most about 292 years |
| RdbModel.PrintReads | rdb/encode.go:331-339 | printing the scores of a sorted set and parsing them gives its value back |
| RdbModel.ValueMeans | rdb/decode.go:236-331 | the value of a listing: its text, its items in order, its members, what each field holds and the score each member has |
| RdbModel.SnapshotLoads | rdb/decode.go:168-350 | loading what was listed of a keyspace gives that keyspace if and only if every deadline is loadable |
| RdbModel.FarDeadlineLost | rdb/decode.go:337-341 | a key whose deadline is one millisecond too far off does not come back as it was |
| RdbParse.StringsRead | rdb/encode.go:107-128 | strings written in a row are read back in a row, whatever follows |
| RdbParse.ObjectReads | rdb/decode.go:230-347 | a written object is read whole and stored under its key with the pending deadline |
| RdbParse.RecReads | rdb/decode.go:178-347 | a written record of any kind is read whole, whatever follows, and applied |
| RdbParse.SecondsRead | rdb/decode.go:208-214 | a deadline in seconds is kept as a thousand times as many milliseconds |
| RdbParse.OtherTypesRead | rdb/decode.go:243-331 | type byte 14 loads as a list and 5 as a sorted set |
| RdbParse.NoteBytes | rdb/encode.go:49-66 | the opcode bytes of notes, database numbers and deadlines |
| RdbParse.ListBytes | rdb/encode.go:153-229 | the type bytes of strings, lists and sets, and what follows them |
| RdbParse.PairBytes | rdb/encode.go:231-340 | the type bytes of sorted sets and hashes, and what follows them |
| RdbParse.FileBytes | rdb/encode.go:346-354 | the bytes a file starts and ends with |
| RdbParse.RunReads | rdb/decode.go:176-350 | written records in a row are read one by one and applied in order |
| RdbParse.FileReads | rdb/decode.go:168-350 | a written file loads as the fold of its records, and is accepted if and only if its checksum is right or zero |
| Rdb.Encoder.WriteLen | rdb/encode.go:80-104 | appends the length form the format prescribes |
| Rdb.Encoder.WriteString | rdb/encode.go:107-128 | appends a string the format can read back, compressed only when that is shorter |
| Rdb.Encoder.WriteEntry | rdb/encode.go:131-343 | appends the deadline record, if any, and the object record of the entry, scores of a skip list printed on the way |
| Rdb.Encoder.WriteFooter | rdb/encode.go:346-354 | ends the file with the checksum of everything before it |
| Rdb.Save | rdb/rdb.go:28-79 | the file is the header, the preamble and entry records, and the right checksum |
| Rdb.Decoder.ReadLen | rdb/decode.go:68-109 | exactly what the format says of the next bytes, errors included, and how far the read gets even then |
| Rdb.Decoder.ReadString | rdb/decode.go:112-165 | exactly what the format says of the next bytes, integer and compressed forms and errors included, and how far the read gets even then |
| Rdb.Decoder.ReadStrings | rdb/decode.go:257-263 | any bytes read as so many strings: the strings or an error, and how far the reads get |
| Rdb.Decoder.ReadBody | rdb/decode.go:243-330 | any bytes read as a value of any type byte: the value, an error, or a type that is skipped |
| Rdb.Decoder.ReadRecord | rdb/decode.go:178-347 | any bytes after any opcode: the new state of the loader, the error, and how far the read gets |
| Rdb.Decoder.Load | rdb/decode.go:168-350 | any file at all: the keyspace and the answer are what the records up to the end mark, an error or the end of the input come to; behind an end mark the checksum decides, right or zero |
| Rdb.SaveThenLoad | rdb/encode.go:131-354 | saving a keyspace and loading the file passes the checksum and gives the same keyspace, values and deadlines alike, if and only if every deadline is loadable |
| StreamLog.CompareTotal | datastruct/stream/id.go:34-46 | the comparison of IDs is a total order: equal only for equal IDs, mirrored, transitive |
| StreamLog.BeforeIff | datastruct/stream/id.go:34-46 | an ID is before another exactly when milliseconds times 2^64 plus sequence number is less |
| StreamLog.LiveIncreasing | datastruct/stream/stream.go:77-135 | strict order of the visible entries follows from the order kept between neighbours that are not deleted |
| StreamLog.LiveHas | datastruct/stream/stream.go:263-285 | an entry is visible exactly when a record that is not deleted holds it, payload included |
| StreamLog.MatchingVisible | datastruct/stream/stream.go:263-285 | what a range returns is the visible entries within its bounds |
| StreamLog.WithoutVisible | datastruct/stream/stream.go:335-359 | what a deletion leaves is the visible entries with other IDs |
| Stream.Stream.Add | datastruct/stream/stream.go:77-135 | refused exactly when something is visible and the ID is not larger; otherwise the entry is last, in the tail chunk or a new one, and the newest maxLen are kept when a limit is given |
| Stream.Stream.Trim | datastruct/stream/stream.go:199-250 | keeps exactly the newest min(length, maxLen) entries in both modes, and counts the rest |
| Stream.Stream.Delete | datastruct/stream/stream.go:335-359 | exactly the visible entries with these IDs disappear and are counted |
| Stream.Stream.RangeForward | datastruct/stream/stream.go:263-285 | the visible entries within the bounds, in order, cut at count, whatever chunks are skipped |
| Stream.Stream.RangeBackward | datastruct/stream/stream.go:286-312 | exactly what the backward walk with its chunk skip can see, cut at count |
| Stream.BackwardRightIffHeadsLow | datastruct/stream/stream.go:288 | the backward range is the reversed forward range for every query if and only if no chunk starts above one of its live entries |
| Stream.IncreasingHeadsLow | datastruct/stream/stream.go:288 | a log whose IDs never went down, tombstones included, has no such chunk |
| Stream.Run | datastruct/stream/stream.go:77-359 | any run of additions, trims and deletions shows exactly the replayed entries; when every added ID exceeds all earlier ones the backward range is right for every query |
| Stream.AddTwo | datastruct/stream/stream.go:77-100 | of two additions the second is taken exactly when its ID is the larger number; both are then visible with their payloads |
| Stream.RestartHidesEntry | datastruct/stream/stream.go:288 | adding, deleting and adding a smaller ID gives a stream whose forward range finds the entry and whose backward range over the same IDs does not |
| Stream.Stream.VisibleIncreasing | datastruct/stream/stream.go:77-359 | in every reachable state the visible entries increase strictly and the length counts them |
| Groups.ConsumerGroup.AddPending | datastruct/stream/cgroup.go:57-77 | the entry is pending for its named owner and on that owner's list; a second delivery counts up |
| Groups.ConsumerGroup.Ack | datastruct/stream/cgroup.go:80-91 | pending becomes acknowledged, on the group and on the owner; every other consumer stays as it was |
| Groups.ConsumerGroup.DeliverOne | datastruct/stream/stream.go:467-477 | the cursor moves to the new ID; without NOACK the ID becomes pending for the reader and goes on its list, and nothing else moves |
| Groups.ReadNew | datastruct/stream/stream.go:458-483 | the first count visible entries past the cursor, in strictly increasing order across consumers; without NOACK each is pending for the reader, delivered once at this time, and on its list; no other pending entry or list changes; what is owed stays pending or acknowledged |
| Groups.ReadHistory | datastruct/stream/stream.go:484-504 | the visible entries past the start that are on the consumer's own list, cut at count |
| Groups.Claim | datastruct/stream/stream.go:574-592 | exactly the named pending entries idle long enough are the claimer's, at this time and with their count raised; the pending set, the other entries and the other lists do not change |
| Glob.MatchClass | glob/glob.go:35-77 | a character class, with negation, ranges and escapes, accepts what its items say and takes its exact width |
| Glob.Consume | glob/glob.go:30-94 | one token against one byte, and the rest of the pattern |
| Glob.MatchImpl | glob/glob.go:116-187 | with the shared skip flag the answer is the declarative match when the stars are not nested deeper than 1000, and no when they are; the number of calls is at most the length of the string plus the star groups plus one |
| Glob.Match | glob/glob.go:106-109 | the public answer, for every pattern and string |
| Glob.StarTakesSuffix | glob/glob.go:123-142 | a star matches exactly when the rest matches some suffix |
| Glob.PlainMatches | glob/glob.go:79-94 | a pattern without special bytes matches just itself, up to A-Z and a-z when case is folded |
| Glob.TokenThenRest | glob/glob.go:144-170 | plain bytes in front of a pattern match a prefix, the pattern the rest |
| Glob.QuestionMatches | glob/glob.go:31-33 | a question mark matches any one byte |
| Glob.EscapeMatches | glob/glob.go:79-86 | a backslash takes the next byte literally |
| Glob.ClassMatches | glob/glob.go:35-77 | a bracketed set matches one byte in it, and with a caret one byte outside it, up to case when that is folded |
| Glob.RangeMatches | glob/glob.go:48-58 | a bracketed range matches one byte between its ends, in either order, and with a caret one outside |
| Glob.DoubleStar | glob/glob.go:124-126 | adjacent stars are one star |
| Glob.StarQuestionsMatch | glob/glob.go:111-119 | a family of patterns the declarative match accepts and the nesting limit refuses |
| Watch.System.Bump | db/sharded.go:462-480 | counts the write while anybody watches; every client's mark keeps telling how often its keys were hit |
| Watch.System.FlushAll | db/sharded.go:535-552 | every key that was there counts as written, even when the counters are dropped |
| Watch.System.WatchKey | commands/transaction.go:95-113 | the mark is the current count, so the key has not been hit since |
| Watch.System.WatchCommand | commands/transaction.go:95-113 | refused inside MULTI; otherwise every named key starts unhit and nothing else changes |
| Watch.System.ClearWatch | commands/transaction.go:35-40 | the watches are gone; dropping the counters with the last watcher misleads nobody |
| Watch.System.ExecCommand | commands/transaction.go:123-168 | the verdict is the one never-reclaimed counters would give, modulo 2^64: a conflict exactly when a watched key was hit since its latest WATCH |
| Watch.SameVerdict | db/sharded.go:483-488 | a counter differs from its mark if and only if the hits are not a multiple of the modulus |
| Resp.CommandReads | parser/req_parser.go:49-105 | an encoded command of 1 to 1048576 arguments within the size cap, of any bytes, is read back whole whatever follows |
| Resp.CommandCut | parser/req_parser.go:49-105 | a proper prefix of one is never a command nor garbage: end of input in a header line, truncation in the data |
| Resp.ReplayPrefix | aof/aof.go:290-303 | any byte prefix of a log replays exactly the commands wholly inside it; the replay reports an error exactly when the cut falls in argument data |
| Resp.WriteCommand | aof/rewrite.go:21-30 | the loop writes the encoding |
| Resp.Reader.NextLine | parser/req_parser.go:134-147 | the line up to the line feed with its ending stripped, or the end of input |
| Resp.Reader.NextMultiBulk | parser/req_parser.go:49-105 | the loop reads what the grammar says and stops right behind it |
| Resp.Reader.NextRequest | parser/req_parser.go:34-47 | multi-bulk after a star, otherwise an inline line |
| Resp.Load | aof/aof.go:275-306 | executes exactly the replay of the log |
| Replication.Backlog.Feed | replication/backlog.go:32-50 | the ring holds the last bytes of the whole stream, each at its offset modulo the size |
| Replication.Backlog.CanPartialSync | replication/backlog.go:53-57 | true exactly for the offsets the ring still covers |
| Replication.Backlog.ReadFromOffset | replication/backlog.go:60-87 | for every admissible offset exactly the stream from there to its end |
| Fanout.Manager.FeedCommand | replication/manager.go:90-127 | every registered session gets the command or is dropped; the log, the offset and all sessions stay consistent |
| Fanout.Manager.HandlePSync | replication/manager.go:174-210 | CONTINUE exactly when the ID matches and the ring covers the offset, with the stream from there; the session starts at the next command |
| Fanout.Manager.RegisterReplica | replication/manager.go:150-154 | a fresh session that holds the preamble and starts at the next command |
| Fanout.Manager.UnregisterReplica | replication/manager.go:157-165 | the session is closed and no longer fed |
| Fanout.Manager.Receive | server/server.go:359-377 | the connection takes the queued messages in order |
| Fanout.LiveSeesAll | replication/manager.go:90-210 | for every live session the payload and the messages behind the preamble are the stream from the requested offset to its end |
| Fanout.SessionSeesPrefix | replication/manager.go:112-126 | a dropped session was told a gap-free prefix of that |
| Fanout.ReplicaReplays | replication/manager.go:90-147 | whatever part of its messages a replica got, it replays the database selection and then consecutive commands from the first after it registered |
| Fanout.PreambleIsSelect | replication/manager.go:132 | the preamble is the encoded SELECT 0 |
| Lcs.BestIsUpperBound | commands/lcs.go:71-81 | no common subsequence is longer than the recurrence says |
| Lcs.FillTable | commands/lcs.go:66-81 | every cell of the flat table is the value for its two prefixes |
| Lcs.WalkBack | commands/lcs.go:93-118 | the walk yields a common subsequence of maximal length, and disjoint descending ranges of equal text that spell it |
| Lcs.Solve | commands/lcs.go:65-126 | the three answers together: maximal length, a text that attains it, ranges whose lengths add up to it |
| Hll.StoreUpdates | datastruct/hll/hll.go:119-135 | storing a register changes that register, leaves its neighbours alone and touches no byte outside the registers |
| Hll.HLL.GetRegister | datastruct/hll/hll.go:104-116 | reads the six bits of the register |
| Hll.HLL.SetRegister | datastruct/hll/hll.go:119-135 | the registers are as before but for this one, and the cache is stale |
| Hll.HLL.ReadWord | datastruct/hll/hll.go:147-152 | the 16-bit path reads what GetRegister reads |
| Hll.HLL.WriteWord | datastruct/hll/hll.go:154-158 | the 16-bit path writes the bytes SetRegister writes |
| Hll.HLL.Add | datastruct/hll/hll.go:138-165 | the element's register becomes the maximum of its value and the element's rank; the flag says whether it grew |
| Hll.RecordAdds | datastruct/hll/hll.go:138-165 | recording an element turns the sketch of a set into the sketch of the set with it |
| Hll.SketchUnique | datastruct/hll/hll.go:138-165 | the registers are a function of the set of elements |
| Hll.OrderDoesNotMatter | datastruct/hll/hll.go:138-165 | two runs that add the same elements end in the same registers |
| Hll.HLL.Merge | datastruct/hll/hll.go:254-263 | the pointwise maximum, also when both are one sketch |
| Hll.MergeIsUnion | datastruct/hll/hll.go:254-263 | merging two sketches gives the sketch of the union |
| Hll.HLL.Tallied | datastruct/hll/hll.go:216-235 | the loop over six bytes at a time counts every register once |
| Hll.HLL.Count | datastruct/hll/hll.go:210-251 | cached or not, the answer is the estimate for the registers as they are |
| Hll.CountRange | datastruct/hll/hll.go:138-144 | the rank of an element fits a register |
| Hll.CountIs | datastruct/hll/hll.go:138-144 | the rank is n + 1 exactly when bit 14 + n is the lowest set from bit 14 up, 51 when there is none |
| Hll.IndexIs | datastruct/hll/hll.go:141 | the register is chosen by the fourteen low bits |
| Listpack.UvarintReads | datastruct/listpack/listpack.go:47-53 | a length reads back across all widths |
| Listpack.UvarintLen | datastruct/listpack/listpack.go:208-215 | the width of a length |
| Listpack.PackElement | datastruct/listpack/listpack.go:57-70 | where an element lies in the buffer |
| Listpack.Listpack.Append | datastruct/listpack/listpack.go:47-53 | one more element at the end; the buffer is the packing of the sequence |
| Listpack.Listpack.Offsets | datastruct/listpack/listpack.go:57-70 | start and length of every element |
| Listpack.Listpack.Get | datastruct/listpack/listpack.go:74-83 | the element, or none outside the range |
| Listpack.Listpack.Find | datastruct/listpack/listpack.go:107-123 | the first visited position that holds the value, or -1 when none does |
| Listpack.Listpack.ReplaceAt | datastruct/listpack/listpack.go:126-147 | sequence update, also when the length changes width; refused outside the range |
| Listpack.Listpack.DeleteRange | datastruct/listpack/listpack.go:150-168 | removal of a slice; refused unless it lies inside |
| Listpack.Listpack.InsertAt | datastruct/listpack/listpack.go:171-193 | insertion before a position, the end included |
| Listpack.Listpack.All | datastruct/listpack/listpack.go:196-206 | the elements in order |
| ZSetView.InsertOrdered | commands/zset_encoding.go:145-155 | the pair goes where (score, member) order wants it |
| ZSetView.View.Len | commands/zset_encoding.go:28-33 | the number of members |
| ZSetView.View.Score | commands/zset_encoding.go:35-48 | the score, or none |
| ZSetView.View.Range | commands/zset_encoding.go:70-100 | the window of the sorted listing in both directions, in either encoding |
| ZSetView.View.Rank | commands/zset_encoding.go:102-116 | the index in the listing; for a non-empty member found exactly when present |
| ZSetView.View.ShouldPromote | commands/zset_encoding.go:169-177 | promoted exactly when the member is too long, or new and the listpack is full |
| ZSetView.View.Promote | commands/zset_encoding.go:179-187 | the value does not change |
| ZSetView.View.Add | commands/zset_encoding.go:119-141 | the new value is the map's, whatever the thresholds and heights; so is the flag for a new member; a listpack reports an update when the text differs, which is the map's answer if and only if it was not given the score it has in another text |
| ZSetView.View.Remove | commands/zset_encoding.go:157-167 | the flag and the new value are the map's |
| ZSetView.Run | commands/zset_encoding.go:28-187 | after any run with thresholds set anew before every step and any heights drawn at every step the view lists the replayed map in order, and every answer on the way is the map's where equal scores have equal texts |
| ZSetView.ZeroChangesSign | commands/zset_encoding.go:127-131 | giving a member 0 and then -0 is an update in a listpack and none in a skip list |
| Dict.Dict.Set | datastruct/dict/dict.go:28-58 | map update with the right flag, also across its own promotion at 64 pairs |
| Dict.Dict.Get | datastruct/dict/dict.go:61-75 | map lookup |
| Dict.Dict.Del | datastruct/dict/dict.go:78-96 | map removal with the right flag |
| HashView.View.Get | commands/hash_encoding.go:35-44 | map lookup in either encoding |
| HashView.View.Set | commands/hash_encoding.go:77-91 | map update with the right flag, whatever the thresholds; a dictionary afterwards exactly when it was one, a text is too long or the listpack is full |
| HashView.View.Del | commands/hash_encoding.go:93-103 | map removal with the right flag |
| HashView.View.Promote | commands/hash_encoding.go:119-134 | the value does not change, also when the dictionary promotes itself on the way |
| HashView.Run | commands/hash_encoding.go:28-134 | after any run the hash is the replayed map |
| Quicklist.Quicklist.LPush | datastruct/quicklist/quicklist.go:43-71 | one element in front; the chain, the counts and the node capacity stay right |
| Quicklist.Quicklist.RPush | datastruct/quicklist/quicklist.go:74-102 | one element at the end |
| Quicklist.Quicklist.LPop | datastruct/quicklist/quicklist.go:105-127 | the first element, an emptied node unlinked |
| Quicklist.Quicklist.RPop | datastruct/quicklist/quicklist.go:130-153 | the last element, an emptied node unlinked |
| Quicklist.Quicklist.LIndex | datastruct/quicklist/quicklist.go:222-248 | the element at an index from either end, or none |
| Quicklist.Quicklist.LSet | datastruct/quicklist/quicklist.go:251-278 | sequence update at an index from either end; refused outside |
| Quicklist.Quicklist.LRange | datastruct/quicklist/quicklist.go:164-219 | the window across node borders |
| ListView.View.LRange | commands/list_encoding.go:43-68 | the window in either encoding |
| ListView.View.LIndex | commands/list_encoding.go:70-82 | the element at an index from either end, or none |
| ListView.View.LSet | commands/list_encoding.go:84-99 | sequence update; refused outside |
| ListView.View.LPush | commands/list_encoding.go:101-110 | one element in front, whatever the limit; a quicklist afterwards exactly when it was one, the element is too long or the limit is passed |
| ListView.View.RPush | commands/list_encoding.go:112-121 | one element at the end, whatever the limit; a quicklist afterwards under the same condition |
| ListView.View.LPop | commands/list_encoding.go:123-133 | the first element |
| ListView.View.RPop | commands/list_encoding.go:135-146 | the last element |
| ListView.View.WouldExceed | commands/list_encoding.go:164-174 | entries against a positive limit, bytes against the budget a negative one names |
| ListView.BudgetDoubles | commands/list_encoding.go:150-156 | the byte budgets: 4096, doubling up to the fifth setting |
| ListView.View.ReplaceAll | commands/list_encoding.go:207-244 | the new contents, and a quicklist exactly when it was one, an element is too long or the limit is passed |
| ListView.Run | commands/list_encoding.go:29-191 | after any run the list is the replayed sequence |
| IntSet.ParseIffFormat | datastruct/intset/intset.go:26-38 | a member counts as an integer exactly when it is the printed form of a 64-bit one |
| IntSet.IntSet.Search | datastruct/intset/intset.go:48-51 | the first position not below the value |
| IntSet.IntSet.Add | datastruct/intset/intset.go:54-63 | sorted insertion of a new value |
| IntSet.IntSet.Remove | datastruct/intset/intset.go:66-73 | removal of the value |
| SetView.View.Contains | commands/set_encoding.go:37-47 | membership in any encoding |
| SetView.View.Members | commands/set_encoding.go:49-63 | every member once |
| SetView.View.AddOne | commands/set_encoding.go:76-107 | the set with the member, the right flag, and exactly the encoding the thresholds call for |
| SetView.View.Add | commands/set_encoding.go:66-74 | the union, the number of new members and the encoding after all of them |
| SetView.View.Remove | commands/set_encoding.go:109-127 | the difference and the number removed, in the same encoding |
| SetView.View.Pop | commands/set_encoding.go:130-138 | count distinct members leave the set, or all of them |
| SetView.Run | commands/set_encoding.go:26-154 | after any run the set is the replayed set |
| EncodedSet.NewSetFrom | object/encoded.go:22-52 | the members, in the encoding the whole list calls for; a sound set unless the list repeats a member and calls for a listpack, exactly then it is not |
| EncodedSet.AgreeIff | commands/set_encoding.go:76-107 | adding distinct members one by one ends in the encoding NewSetFrom picks, unless the set left the integers for a listpack too narrow for an integer already in it; exactly then it does not |
| EncodedSet.AgreeWithRoom | object/encoded.go:22-52 | with set-max-listpack-value of at least 20 the two always agree |
| EncodedSet.NoRoomDisagrees | object/encoded.go:22-52 | with a smaller one a concrete list tells them apart |
| EncodedSet.RepeatedMemberTwice | object/encoded.go:42-47 | a concrete list with a repeated member that gives an unsound set |
| EncodedSet.BuildBoth | object/encoded.go:22-52 | both builders give the same members in the same encoding |
| EncodedList.NewListFrom | object/encoded.go:107-146 | the elements, in a listpack exactly when all are short and the limit on entries or on added-up bytes is kept |
| EncodedList.SurvivesIff | commands/list_encoding.go:164-181 | pushing one by one keeps the listpack if and only if all elements are short and the entries, or the bytes as they are packed, stay within the limit |
| EncodedList.AgreeIff | object/encoded.go:107-146 | the two end in the same encoding unless the limit is on bytes and these fit as they are packed and not as they are added up; exactly then they do not |
| EncodedList.ManyShortDisagree | object/encoded.go:107-146 | 3000 elements of one byte under the default byte limit tell them apart |
| EncodedList.BuildBoth | object/encoded.go:107-146 | both builders give the same list, in the same encoding under exactly that condition |
| EncodedPairs.NewHashFrom | object/encoded.go:55-74 | the pairs, in a listpack exactly when they are few and short enough; a sound hash unless a field repeats in a listpack |
| EncodedPairs.SetAll | commands/hash_encoding.go:77-115 | setting distinct fields one by one gives that hash, in a listpack under the same condition |
| EncodedPairs.BuildHashes | object/encoded.go:55-74 | a hash that is not empty is in the same encoding however it was built |
| EncodedPairs.NewZSetFrom | object/encoded.go:84-104 | the members in order, in a listpack exactly when they are few and short enough |
| EncodedPairs.AddAll | commands/zset_encoding.go:119-187 | adding distinct members one by one in any order gives that sorted set, in a listpack under the same condition |
| EncodedPairs.BuildZSets | object/encoded.go:84-104 | a sorted set that is not empty is in the same encoding however it was built |
| Propagate.ReadOptions | commands/string.go:281-324 | the loop reads the options in order or refuses |
| Propagate.SetCommand | commands/string.go:267-421 | the command is the function on the entry that the results below speak of |
| Propagate.SetMeans | commands/string.go:267-421 | SET in so many words: exactly which options are an error; XX writes if and only if the key is live, NX if and only if it is not, IFEQ and IFNE if and only if the live text equals or differs from the operand; otherwise nothing changes; GET answers the old text |
| Propagate.AcceptableIff | commands/string.go:281-345 | which options SET refuses: an invalid one, NX with XX, two comparisons, or a comparison with NX or XX |
| Propagate.NormalizeOptions | commands/propagate.go:88-152 | the loop makes deadlines absolute and drops conditions, or asks for a deletion |
| Propagate.NormalAbsolute | commands/propagate.go:88-152 | the rewritten options of SET ask for no deadline counted from when they are read |
| Propagate.NormalizeCommand | commands/propagate.go:20-82 | what is sent names the same key, and asks for no deadline counted from when it is read unless it is an EXPIRE that was turned down, which is sent as it came |
| Propagate.SameKey | commands/propagate.go:20-190 | the propagated form names the same key |
| Propagate.ReadIs | commands/string.go:281-324 | of any options, the last relative one, the last absolute one and KEEPTTL are all that SET remembers of deadlines |
| Propagate.NormalDeletes | commands/propagate.go:96-130 | a deletion is propagated if and only if some expiry option had already passed |
| Propagate.NormalIs | commands/propagate.go:88-152 | read by the replica, the rewritten options come to the last expiry option of any kind and KEEPTTL |
| Propagate.SameIffSlots | db/sharded.go:167-173 | two keyspaces that differ at one key look alike from a time on exactly when that key's entries agree at that time |
| Propagate.SetPropagates | commands/propagate.go:88-152 | SET with any options: one that wrote agrees if and only if the deadline here and the one on the replica are equal or both past; one that NX or XX refused if and only if the old entry is what the replica writes, or both are gone |
| Propagate.SetExPropagates | commands/propagate.go:48-63 | SETEX and PSETEX, overflow included: agreement if and only if the two deadlines are equal or both past |
| Propagate.GetExCommand | commands/string.go:497-547 | the loop over the options is the function on the entry that the results below speak of |
| Propagate.GetExIs | commands/string.go:511-545 | the options of GETEX take effect one by one: the last deadline counts, but one that has passed ends the key, and the command fails if and only if an option is rejected |
| Propagate.GetExMeans | commands/string.go:511-545 | one option of GETEX: which are refused, the deadline each leaves, and the text as the answer |
| Propagate.SetExMeans | commands/string.go:438-460 | SETEX and PSETEX: refused for a count that is not positive, otherwise the text under the deadline the count asks for |
| Propagate.PersistMeans | db/keyspace.go:116-135 | PERSIST drops the deadline of a live key and answers whether there was one |
| Propagate.DeleteMeans | commands/generic.go:249-257 | DEL takes the key away and answers whether it was live |
| Propagate.GetDelMeans | commands/string.go:479-495 | GETDEL takes the key away and answers its text, and refuses a container |
| Propagate.GetExPropagates | commands/propagate.go:155-190 | GETEX with any options: agreement if and only if what they leave here and what the first of them asks for are equal or both past |
| Propagate.GetDelPropagates | commands/propagate.go:71-77 | GETDEL: the replay always agrees |
| Propagate.SeenIff | db/sharded.go:386-390 | of a live key the comparisons of EXPIRE see the deadline itself if and only if it is less than about 292 years off |
| Propagate.ExpireMeans | commands/generic.go:135-210 | EXPIRE on a live key: taken, with the deadline asked for, if and only if NX finds none, XX finds one, GT a smaller one and LT a larger one or none |
| Propagate.ExpireMissing | commands/generic.go:184-186 | EXPIRE on a missing key changes nothing and answers 0 |
| Propagate.ExpireErrs | commands/generic.go:156-179 | exactly which numbers and conditions EXPIRE refuses |
| Propagate.LargestExpiry | commands/generic.go:111-128 | the largest and smallest expiries that are accepted |
| Propagate.QuotientTruncates | db/sharded.go:297 | a duration in milliseconds is rounded toward zero |
| Propagate.ExpirePropagates | commands/propagate.go:24-46 | the EXPIRE family: where it took effect, agreement if and only if the deadline is not zero and the key had not run out before the replay, or is past its new deadline too; where it was turned down, disagreement if and only if the key is still there, the conditions then let it through and the deadline is another |
| Propagate.NearExpirePropagates | commands/generic.go:135-210 | on a deadline seen right, a refused EXPIRE disagrees if and only if GT then finds a relative deadline larger than the one the key still has |
| Propagate.Propagates | commands/propagate.go:20-190 | every command, whatever its options, numbers and outcome: replaying the propagated form at a later time gives the same live keyspace from then on if and only if it agrees in the sense above |
| Propagate.RelativeExactIff | commands/string.go:293-302 | the command and the rewriting compute the same deadline if and only if the nanoseconds fit 64 bits |
| Propagate.PlainSetPropagates | commands/propagate.go:88-152 | SET with at most one deadline, positive and fitting: the replay agrees unless KEEPTTL alone meets a key that has run out in between |
| Propagate.AbsoluteSetIff | commands/string.go:409-414 | SET with one absolute deadline agrees if and only if it is positive |
| Propagate.RelativeSetIff | commands/string.go:293-302 | SET with one relative expiry agrees if and only if its nanoseconds fit 64 bits, or both deadlines are past and the one here is not zero |
| Propagate.SetExExact | commands/propagate.go:48-63 | SETEX and PSETEX always agree while their nanoseconds fit 64 bits |
| Propagate.TwoExpiriesDiverge | commands/string.go:406-411 | a SET with two expiry options that does not agree |
| Propagate.LongExpiryDiverges | commands/string.go:293-297 | a SET with an expiry of 293 years that does not agree |
| Propagate.RefusedExpireDiverges | commands/propagate.go:25-27 | an EXPIRE that was turned down, is propagated as it is and is accepted later |
| Propagate.FarDeadlineDiverges | commands/generic.go:188-204 | an EXPIRE that LT turned down because the deadline was too far off to be seen right, and that is taken later |
| Propagate.RefusedSetDiverges | commands/propagate.go:132-134 | a SET that NX turned down and that the replica carries out |

## Left out

- Clocks are read in whole milliseconds: a duration that wrapped to a fraction of one can end a millisecond later in the program.
- Sockets, files, fsync, background rewriting of the log, goroutine scheduling and the Lua engine: input and output, or libraries.
- Concurrency inside one operation: commands, feeds and reads are atomic steps, as the locks make them.
- Exactly-once delivery between a snapshot and the replica stream, and the log during a rewrite: the program does not provide it.
- Memory limits and eviction: a write is never refused for memory, and eviction is not a step in `Watch.dfy`.
- Geo commands, the estimate of HyperLogLog beyond its histogram, and MurmurHash64A: floating point, and a hash taken as a parameter.
- ACL, cluster, sentinel, configuration, pub/sub and reply formatting: they would add only easy members.
- Stream entries in snapshots, and the compact list and hash object types of newer snapshot versions.
- Field-name interning, arenas and pooled buffers in stream chunks: an entry carries its payload, and whether it still fits the tail chunk is a parameter.
- SIMD variants of match finding and copying: the portable versions are modelled.
- RESTORE, DELEX and the digest comparisons of SET in `Propagate.dfy`; the option words and numbers of commands are taken as already parsed.
- Propagate.Propagates: the keyspace is a value rather than an object, because the statement compares two executions; the entry and its deadline are one record. The command and its rewriting read the clock once, and both readings of it leave room for the largest accepted expiry below 2^63 milliseconds.
- Fanout.Manager.FeedCommand: sessions are values in a map rather than shared channel objects; while the node stays a master, so SetMasterInfo is not a step.
- Fanout.Manager.HandlePSync: the snapshot bytes are a parameter; `Rdb.dfy` says what they contain.
- Rdb.Decoder.Load: one clock reading for the whole load. Of a value that repeats a field or member the last one counts; the program sorts scored members first, and a listpack would hold both. `Rdb.Save` writes no such value.
- Rdb.Decoder.ReadString: a length above 2^63 - 1, or a count or length beyond memory, makes the program panic when it allocates, where the model goes on reading and reports an error.
- Rdb.SaveThenLoad: printing and parsing of scores are parameters; scores are required to read back as themselves.
- Resp.Reader.NextRequest: the splitting of an inline line at white space is a parameter.
- Groups.ConsumerGroup.AddPending: an owner's list holds IDs, not shared entry objects; that a former owner drops a claimed entry is not stated, because it does not.
- Watch.System.ExecCommand: the version shards are one map; keys other than the first that a command writes in place are not bumped by the program and not modelled. A queued command writes one key: a queued FLUSHALL or UNWATCH is not a step.
- Hll.HLL.Count: the estimate is any function of the histogram below 2^63.
- Lcs.Solve: the 32-bit cells do not overflow for strings within the size limit, so they are unbounded here; the filter by MINMATCHLEN is left out.
- ZSetView.View.Add: the text is whatever the score was printed as; it is required to read back as the score. Scores are reals, so infinite ones are not modelled, and 0 and -0 are one score with two texts.
- HashView.View.Get: listing all fields is not modelled; the order of a Go map is arbitrary.
- Stream.Stream.Add: generating IDs from the clock is not modelled.
