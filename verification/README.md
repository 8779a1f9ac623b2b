# App Mesh: a verified model

A Dafny model of the decision-making core of App Mesh, with proofs of what it guarantees. `dafny verify dfyconfig.toml`
checks all of it.

- **Cluster scheduler** (`Scheduler*`, `ConsulEntity`, `ConsulConnection`, `ControlLoop`, `Labels`). The leader reads
  tasks, nodes and the old topology, matches tasks to hosts by label, keeps placements that are still valid, fills the
  remaining replicas onto the least loaded hosts with room, and writes back the hosts that changed. `Scheduler` and
  `ConsulConnection` are the imperative code, in which the same node objects are shared by the match lists of many
  tasks; it is proved equal to a model on values (`SchedulerModel`), about which conservation, stickiness, memory
  accounting, capacity, absence of wasted capacity and exactly when the control loop has a fixed point are proved.
- **Wildcard matcher** of label conditions (`Wildcards*`). Both forms of the header, loops and recursion, are modelled
  and proved equal; the matcher is total, sound for a language of patterns for every pattern, and complete where no word
  of a branch is a prefix of another, or a star follows. Every pattern that is written means what its text says.
- **Tokens** (`Decimal`, `Json*`, `Base64*`, `Jwt*`). JSON printing and parsing, base64 and base64url, and the signed
  token on top: a round trip in each layer, the exact texts that are read, base64 by its published tables, and exactly when
  a token is accepted. HMAC is an arbitrary deterministic function to bytes. The order in which a verifier's hash table of claims is walked is a parameter.
- **Cron engine** (`Calendar`, `Cron*`). What the text of an expression means, with its 8-bit arithmetic, and the recursive
  search that changes one broken-down time field by field: termination and strict advance for every expression, and exactly for which expressions
  the answer is always the earliest time that is described, with an input for each way in which it is not.
- **Durations, JSON prettifier, histogram** (`Duration`, `PrettyJson`, `AtomicCells`, `Histogram`). The histogram is a
  state machine over the atomic steps of many threads.

Conventions. `std::map` order is made explicit in `OrderedKeys`. C++ exceptions are results. Integer widths appear
where they matter: the 64-bit byte counters wrap around, cron numbers are 8 bits, durations are 32 bits with overflow
as an outcome of its own, JSON integers are 64 bits, token times are 64-bit nanoseconds. Bytes of a `std::string` are
characters below 256. Where a duration or a token's time would overflow, which C++ leaves undefined, the outcome says so.
Library calls are modelled by what they guarantee: `std::sort` by its contract, `mktime` as normalisation on the
Gregorian calendar in UTC, `strtoimax` and `strtod` by the texts they consume.

Where documentation and code differ, the model follows the code. The parser's limit of 100 depths counts arrays only:
objects do not count, and are refused only where no array could be opened either. Section 5 of RFC 4648 pads base64url
with `=`; this code pads with the three characters `%3d`, which a token never carries because it is trimmed, as section
7.1 of RFC 7515 asks. Expiry and time of issue are those of sections 4.1.4 and 4.1.6 of RFC 7519, in whole seconds.

## Model

| member | source | states |
|---|---|---|
| `SchedulerFixedPoint.ScheduleIsFixedPoint` | src/daemon/consul/Scheduler.cpp:7-123 | Scheduling again from fresh copies of the same nodes and tasks, with the placements of the first run as the old topology, gives the same topology, times included, whatever the sorts and clocks do, if and only if the run ended settled: no host that matched and does not carry a task would take one of its left over replicas. It does whenever for every host the requests of the tasks that match it come to less than 2^64 bytes |
| `SchedulerFixedPoint.SettledUnlessWrapped` | src/daemon/consul/ConsulEntity.cpp:203-220 | A run can end unsettled only at a host where the requests it carries and one more come to 2^64 bytes or more; without that every run is settled |
| `SchedulerOverflow.WrapAroundUnsettles` | src/daemon/consul/Scheduler.cpp:57-120 | The first pass over a cluster of one host of 10 MiB and three apps with a memoryMB of 8, 4 and -4, which nothing refuses, ends unsettled: the second app is refused, and then the third, whose negative memoryMB becomes a large unsigned number, lowers the byte counter |
| `ControlLoop.OrdinaryTasksFit` | src/daemon/consul/ConsulEntity.cpp:34-34 | Without a negative memoryMB, and with at most 8192 tasks matched to each host, the requests fit every host, so the loop settles |
| `SchedulerTheorems.NoCapacityWasted` | src/daemon/consul/Scheduler.cpp:57-120 | If replicas of a task are left over, every host that matched it at entry and does not carry it ends with apps whose requests, as numbers of any size, come to total - request or more, after all later tasks and whatever the counters do; occupied + requested >= total where the counter did not wrap |
| `SchedulerTheorems.ReplicasConserved` | src/daemon/consul/Scheduler.cpp:16-119 | Placements in the new topology plus indices left to place are the replicas at entry; every placement is on a host that matched at entry |
| `SchedulerTheorems.PlacementsSticky` | src/daemon/consul/Scheduler.cpp:24-49 | Of the still matching old hosts the first ones in host order are kept, as many as there are replicas, with their old time; every other placement has a time read during the run |
| `SchedulerTheorems.TimeStable` | src/daemon/consul/Scheduler.cpp:49-49 | An app that runs on a host before and after keeps its schedule time there |
| `SchedulerTheorems.MemoryAccounted` | src/daemon/consul/ConsulEntity.cpp:203-207 | A node shared by many tasks ends with exactly the apps of the topology; its occupied bytes are the sum of their requests if and only if that sum is below 2^64, as it is when all tasks that match the host ask for less |
| `SchedulerTheorems.CapacityRespected` | src/daemon/consul/Scheduler.cpp:96-113 | A node that gets an app in the second phase ends strictly below its total; a node that the kept placements fill gets nothing |
| `SchedulerFixedPoint.FillTakesFirst` | src/daemon/consul/Scheduler.cpp:95-119 | The second phase places a task on the first hosts of the sorted order that have room, and on no others |
| `SchedulerFixedPoint.LeastLoadedFirst` | src/daemon/consul/Scheduler.cpp:75-119 | A host that gets a replica has no more apps assigned than any matched host with room that gets none, and where it has as many it has no more bytes occupied |
| `SchedulerPhases.KeepHostsEffect` | src/daemon/consul/Scheduler.cpp:24-53 | What the first phase does for one task: which hosts it keeps, what is left to match and to place, and that other tasks are untouched |
| `SchedulerPhases.FillHostsEffect` | src/daemon/consul/Scheduler.cpp:95-119 | What the second phase does for one task: placements added at fresh times on hosts tried, replicas taken from the pool |
| `Scheduler.ScheduleTask` | src/daemon/consul/Scheduler.cpp:7-123 | The nested loops over shared node and task objects compute the value model: the returned topology and the final state of every node and task |
| `Scheduler.KeepPhase` | src/daemon/consul/Scheduler.cpp:16-54 | The loop over all tasks that keeps old placements |
| `Scheduler.KeepRunning` | src/daemon/consul/Scheduler.cpp:24-53 | The loop over the old hosts of one task, which stops when no replica is left |
| `Scheduler.KeepHost` | src/daemon/consul/Scheduler.cpp:27-52 | One old host: a running, still matching task keeps one replica there |
| `Scheduler.KeepReplica` | src/daemon/consul/Scheduler.cpp:38-51 | Match list, replica pool, new topology and node after one replica is kept |
| `Scheduler.FillPhase` | src/daemon/consul/Scheduler.cpp:57-120 | The loop over all tasks that places what is left |
| `Scheduler.FillHosts` | src/daemon/consul/Scheduler.cpp:96-119 | The loop that pops the least loaded host until replicas or hosts run out |
| `Scheduler.TryHost` | src/daemon/consul/Scheduler.cpp:102-102 | A host is taken if it is not full and has strictly more room than requested |
| `Scheduler.PlaceReplica` | src/daemon/consul/Scheduler.cpp:104-111 | Topology, pool and node after one new placement at the time of the clock |
| `Scheduler.SortByLoad` | src/daemon/consul/Scheduler.cpp:75-89 | The sorted vector is a permutation; no node in it has more apps than a later one, nor, with as many apps, more bytes occupied |
| `Scheduler.MatchedNodes` | src/daemon/consul/Scheduler.cpp:70-71 | The vector holds the node of every matched host, in host order |
| `ConsulEntity.ConsulNode.AssignApp` | src/daemon/consul/ConsulEntity.cpp:203-207 | The app is added and the 64-bit byte counter grows by the request, wrapping around |
| `ConsulEntity.ConsulNode.TryAssignApp` | src/daemon/consul/ConsulEntity.cpp:209-220 | True if and only if the 64-bit sum of occupied and requested bytes is below the total |
| `ConsulEntity.ConsulTask.constructor` | src/daemon/consul/ConsulEntity.cpp:39-43 | A task read with n replicas has the indices 1 to n to place, and no matched hosts |
| `ControlLoop.SecondPassWritesNothing` | src/daemon/consul/ConsulConnection.cpp:425-449 | Over the store that a pass leaves, the next pass with the same nodes and tasks writes nothing, and decides on what it read, if and only if the first pass ended settled, as it does when for every host the requests of the tasks that match it fit 64 bits |
| `ControlLoop.DispatchReachesTarget` | src/daemon/consul/ConsulConnection.cpp:684-756 | If the writes succeed, reading back gives exactly the hosts and app sets of the new topology (deleted hosts are absent); hosts that do not differ are not written |
| `ControlLoop.PassStoresSchedule` | src/daemon/consul/ConsulConnection.cpp:730-756 | The topology stored by a pass is the one decided on; only hosts that were written lose the fraction of a second of their times |
| `ControlLoop.WholeSecondsAreWritten` | src/daemon/consul/ConsulConnection.cpp:730-756 | A time is written as a whole number of seconds, 1000000000 nanoseconds each, that differs from it by less than a second, towards zero |
| `ControlLoop.PassMeetsConditions` | src/daemon/consul/ConsulConnection.cpp:425-449 | Each app in the topology of a pass is one that was read, with a name and a replica, and each host it runs on is one of the cluster whose labels have every key of its condition, with an equal value or a word of the pattern |
| `ControlLoop.PassPlacesReplicas` | src/daemon/consul/ConsulConnection.cpp:425-449 | Each app that was read runs on as many hosts as it has replicas; or on fewer, and then every host that its labels let it run on and that does not run it carries, at the end, apps that leave no room for it |
| `ControlLoop.RequestInBytes` | src/daemon/consul/ConsulEntity.cpp:34-34 | A memoryMB of m asks for m * 1048576 bytes, a negative one for 2^64 + m * 1048576 |
| `ConsulConnection.ConsulConnection.CompareTopologyAndDispatch` | src/daemon/consul/ConsulConnection.cpp:684-728 | Exactly the hosts that differ are written, each once, updates and additions before deletions, with their new apps |
| `ConsulConnection.ConsulConnection.Differs` | src/daemon/consul/ConsulConnection.cpp:690-706 | Equal sizes and one-way inclusion decide whether the app sets are equal |
| `ConsulConnection.ConsulConnection.WriteChanged` | src/daemon/consul/ConsulConnection.cpp:686-718 | The loop over the new topology |
| `ConsulConnection.ConsulConnection.WriteGone` | src/daemon/consul/ConsulConnection.cpp:720-727 | The loop that deletes hosts |
| `ConsulConnection.WritesAreChanges` | src/daemon/consul/ConsulConnection.cpp:684-728 | The hosts written are those that differ, so none when nothing changed |
| `ConsulConnection.ConsulConnection.WriteTopology` | src/daemon/consul/ConsulConnection.cpp:730-756 | A missing or empty topology is stored as the empty object, others as their apps |
| `ConsulConnection.ConsulConnection.DoSchedule` | src/daemon/consul/ConsulConnection.cpp:425-449 | One turn as leader is a pass of the value model; with no nodes nothing is written |
| `ConsulConnection.FindTaskAvailableHost` | src/daemon/consul/ConsulConnection.cpp:662-682 | Each task is matched to exactly the hosts whose labels meet its condition and that are not full, by shared node objects |
| `ConsulConnection.RetrieveTask` | src/daemon/consul/ConsulConnection.cpp:818-849 | Fresh tasks for those with a name and at least one replica |
| `ConsulConnection.RetrieveNode` | src/daemon/consul/ConsulConnection.cpp:856-886 | Fresh, empty nodes for the hosts |
| `ConsulConnection.ReadIsAtStart` | src/daemon/consul/ConsulConnection.cpp:435-441 | What was read and matched is the start state of the schedule |
| `Labels.MatchLabel` | src/daemon/Label.cpp:68-87 | Every label of the condition is present and equal to its pattern or matched by it; a missing condition is never met |
| `Labels.SatisfiesMeans` | src/daemon/Label.cpp:68-87 | A met condition means what its patterns denote; one whose values are equal, or words of committed patterns, is met |
| `WildcardsSafety.MatchNeverThrows` | src/common/wildcards/wildcards.hpp:1494-1606 | The matcher terminates and reaches no throw site, for every text, pattern and range |
| `WildcardsSafety.MatchAltNeverThrows` | src/common/wildcards/wildcards.hpp:1459-1490 | Every branch of an alternative is delimited inside it, and matching it never throws |
| `WildcardsSafety.MatchSetNeverThrows` | src/common/wildcards/wildcards.hpp:997-1138 | Where is_set holds, match_set does not throw |
| `WildcardsSafety.SetEndExists` | src/common/wildcards/wildcards.hpp:821-986 | is_set is true exactly when set_end succeeds, with its result in the range |
| `WildcardsSafety.SetEndNarrow` | src/common/wildcards/wildcards.hpp:898-986 | A set is the same set in every range that contains it |
| `WildcardsSafety.AltEndExists` | src/common/wildcards/wildcards.hpp:1146-1343 | is_alt never throws, and is true exactly when alt_end succeeds |
| `WildcardsSafety.AltSubEndExists` | src/common/wildcards/wildcards.hpp:1351-1450 | On the narrowed range of every branch alt_sub_end succeeds and stays inside the alternative |
| `WildcardsLanguage.MatchSound` | src/common/wildcards/wildcards.hpp:1494-1606 | A true result means that the consumed part of the text is a word of the pattern, for every pattern |
| `WildcardsLanguage.MatchAltSound` | src/common/wildcards/wildcards.hpp:1459-1490 | The same for alternatives: some branch denotes a prefix and the rest of the pattern the remainder |
| `WildcardsLanguage.MatchSetMeans` | src/common/wildcards/wildcards.hpp:997-1138 | A set admits a character if and only if it is a member, or no member behind ! |
| `WildcardsCompleteness.MatchesSound` | src/common/wildcards/wildcards.hpp:1608-1618 | A whole match is right for every pattern |
| `WildcardsCompleteness.MatchesExactly` | src/common/wildcards/wildcards.hpp:1608-1618 | The matcher decides the language of every pattern in which, at every depth, no word of a branch is a proper prefix of another word of that branch, or the branch has no alternative in it and a star follows |
| `WildcardsCompleteness.MatchComplete` | src/common/wildcards/wildcards.hpp:1494-1606 | For such patterns a word of the pattern is never missed, in partial matches too |
| `WildcardsCompleteness.TakesEveryWord` | src/common/wildcards/wildcards.hpp:1459-1490 | A branch takes each of its words, in every text, if and only if none is a proper prefix of another |
| `WildcardsCompleteness.FixedWidthsCommit` | src/common/wildcards/wildcards.hpp:1459-1490 | Branches of one length each, which the pattern shows, meet that condition |
| `WildcardsCompleteness.NestedIsCommitted` | src/common/wildcards/wildcards.hpp:1459-1490 | ((a|ab)c) meets it too, though its branch has words of two lengths |
| `WildcardsCompleteness.MatchShortest` | src/common/wildcards/wildcards.hpp:1494-1606 | Without alternatives a partial match is the shortest there is |
| `WildcardsCompleteness.MatchAltComplete` | src/common/wildcards/wildcards.hpp:1459-1490 | The branch that fits is found |
| `WildcardsCompleteness.StarInBranchMisses` | src/common/wildcards/wildcards.hpp:1459-1490 | (*)b denotes ab, but the matcher commits to the empty branch and misses it |
| `WildcardsSyntax.TextMeans` | src/common/wildcards/wildcards.hpp:1494-1606 | The text of a pattern means the pattern: * any text, ? any one character, a backslash the character behind it, [...] its members, [!...] all others, (...|...) its branches, nested to any depth |
| `WildcardsSyntax.MatchesWhatIsWritten` | src/common/wildcards/wildcards.hpp:1608-1618 | On such text the matcher says yes to words of the written pattern only, and to all of them if its branches are committed |
| `WildcardsLoops.IsSetLoop` | src/common/wildcards/wildcards.hpp:826-872 | The loop form of is_set agrees with the recursive form |
| `WildcardsLoops.SetEndLoop` | src/common/wildcards/wildcards.hpp:902-961 | The loop form of set_end agrees with the recursive form, errors included |
| `WildcardsLoops.MatchSetLoop` | src/common/wildcards/wildcards.hpp:1002-1089 | The loop form of match_set agrees with the recursive form, final positions included |
| `WildcardsLoops.IsAltLoop` | src/common/wildcards/wildcards.hpp:1151-1205 | The loop form of is_alt agrees with the recursive form |
| `WildcardsLoops.AltEndLoop` | src/common/wildcards/wildcards.hpp:1243-1309 | The loop form of alt_end agrees with the recursive form |
| `WildcardsLoops.AltSubEndLoop` | src/common/wildcards/wildcards.hpp:1356-1417 | The loop form of alt_sub_end agrees with the recursive form |
| `WildcardsLoops.MatchAltSteps` | src/common/wildcards/wildcards.hpp:1465-1480 | The statement form of match_alt agrees with the recursive form, final positions included |
| `WildcardsLoops.MatchSteps` | src/common/wildcards/wildcards.hpp:1499-1558 | The statement form of match agrees with the recursive form, final positions included |
| `JsonRoundTrip.ReadSerialized` | src/common/jwt-cpp/picojson.h:566-650 | Parsing the serialization, compact or prettified, gives the same value if and only if every array and object has fewer than 100 arrays around it; otherwise it fails |
| `JsonRoundTrip.ParsePrinted` | src/common/jwt-cpp/picojson.h:876-928 | The same at any depth limit and indentation, with any text behind the value that does not lengthen a numeral; exactly that text is left |
| `JsonRoundTrip.ParseItemsPrinted` | src/common/jwt-cpp/picojson.h:820-834 | The items of a printed array are read back in order, up to its bracket |
| `JsonRoundTrip.ParseFieldsPrinted` | src/common/jwt-cpp/picojson.h:837-853 | The fields of a printed object are read back into the map in its order |
| `JsonRoundTrip.LiteralEscaped` | src/common/jwt-cpp/picojson.h:779-817 | A string that serialize_str escaped is read back, up to its quote, whatever its bytes |
| `JsonRoundTrip.ParseIntText` | src/common/jwt-cpp/picojson.h:898-921 | A printed 64-bit integer is read back as that integer |
| `JsonExactly.ReadsExactly` | src/common/jwt-cpp/picojson.h:876-928 | Exactly the texts of the JSON grammar are read, with any white space between their tokens, any escapes and both cases of hexadecimal digits, and as the values they spell, if every array and object has fewer than 100 arrays around it; beyond the grammar of RFC 8259 only numerals are laxer, and what follows the text is left |
| `JsonGrammar.ParseDoc` | src/common/jwt-cpp/picojson.h:876-928 | Every such text is read as its value at any depth limit, or refused for its depth alone |
| `JsonExactly.SoundDoc` | src/common/jwt-cpp/picojson.h:876-928 | Whatever is read is white space and a text of the grammar |
| `JsonGrammar.NumReads` | src/common/jwt-cpp/picojson.h:898-921 | A numeral without fraction and exponent that fits 64 bits is read as that integer, any other as a double |
| `JsonLayout.PrintSpells` | src/common/jwt-cpp/picojson.h:559-644 | What is printed is a text of the grammar that spells the value: compact, or with a line break and two blanks for each level before every item, member and closing bracket |
| `JsonUnicode.CodepointOfEscape` | src/common/jwt-cpp/picojson.h:738-776 | The escape of any code point, in one unit or as a surrogate pair, is read as its UTF-8 bytes |
| `JsonUnicode.Utf8IsUtf8` | src/common/jwt-cpp/picojson.h:761-775 | The bytes pushed decode to the code point, in as many bytes as the lead byte announces |
| `JsonInput.Input.GetC` | src/common/jwt-cpp/picojson.h:661-674 | Gives the next byte of the rest, or -1; the line counter is one more than the newlines before the cursor |
| `JsonInput.Input.UngetC` | src/common/jwt-cpp/picojson.h:675-677 | Takes back what was given last |
| `JsonInput.Input.SkipWs` | src/common/jwt-cpp/picojson.h:689-697 | Leaves exactly the rest after leading white space |
| `JsonInput.Input.Expect` | src/common/jwt-cpp/picojson.h:698-705 | Skips white space and consumes the expected character if it is there, nothing else otherwise |
| `JsonInput.Input.Match` | src/common/jwt-cpp/picojson.h:706-714 | True if and only if the rest begins with the pattern, which is then consumed |
| `JsonInput.ParseQuadHex` | src/common/jwt-cpp/picojson.h:717-736 | Four hexadecimal digits and their number, or failure |
| `JsonInput.ParseCodepoint` | src/common/jwt-cpp/picojson.h:738-776 | A code unit or a surrogate pair; lone surrogates fail |
| `JsonInput.ParseString` | src/common/jwt-cpp/picojson.h:779-817 | The loop agrees with the recursive reading of a literal |
| `JsonInput.ParseNumber` | src/common/jwt-cpp/picojson.h:856-874 | The longest run of numeral characters is consumed |
| `JsonParser.ParseValue` | src/common/jwt-cpp/picojson.h:876-928 | The recursive descent over the cursor agrees with the reading function, values and rest |
| `JsonParser.ParseArray` | src/common/jwt-cpp/picojson.h:820-834 | The loop over items, with one array less to open inside |
| `JsonParser.ParseObject` | src/common/jwt-cpp/picojson.h:837-853 | The loop over members, which overwrites earlier ones of the same key and opens no array |
| `JsonParser.ParseText` | src/common/jwt-cpp/picojson.h:1127-1131 | Parsing a whole string with the default depth of 100 |
| `JsonWriter.Writer.SerializeStr` | src/common/jwt-cpp/picojson.h:559-564 | The quoted, escaped string is appended |
| `JsonWriter.Writer.SerializeChar` | src/common/jwt-cpp/picojson.h:529-557 | What is appended for one character |
| `JsonWriter.Writer.Indent` | src/common/jwt-cpp/picojson.h:574-579 | A line break and two spaces for each level are appended |
| `JsonWriter.Writer.Serialize` | src/common/jwt-cpp/picojson.h:581-644 | The serializer appends exactly the printed value |
| `JsonWriter.Writer.SerializeArray` | src/common/jwt-cpp/picojson.h:586-608 | The loop over items, with separators and indentation |
| `JsonWriter.Writer.SerializeObject` | src/common/jwt-cpp/picojson.h:609-636 | The loop over members, with separators and indentation |
| `JsonWriter.SerializeValue` | src/common/jwt-cpp/picojson.h:646-650 | The text of a value, compact or prettified |
| `Base64Theorems.DecodeEncode` | src/common/jwt-cpp/base.h:82-187 | decode(encode(x)) == x for every byte string, in both alphabets |
| `Base64Theorems.DecodeTrimmed` | src/common/jwt-cpp/base.h:82-204 | decode(pad(trim(encode(x)))) == x, in both alphabets |
| `Base64Theorems.PadTrim` | src/common/jwt-cpp/base.h:189-204 | pad(trim(encode(x))) == encode(x); trimmed text is alphabet symbols only and holds no dot |
| `Base64Theorems.DecodeAccepts` | src/common/jwt-cpp/base.h:131-187 | Text is decoded if and only if it is symbols and up to two fills whose numbers add up to a multiple of four |
| `Base64Theorems.DataIsNotFill` | src/common/jwt-cpp/base.h:135-143 | Symbols are never taken for a fill, though base64url fills with three characters |
| `Base64Theorems.EncodeSplits` | src/common/jwt-cpp/base.h:82-129 | An encoding is its symbols followed by zero to two fills |
| `Base64Tables.EncodeByTable` | src/common/jwt-cpp/base.h:28-129 | By the published tables: each three bytes are four characters whose places in the table are the digits, to base 64, of x * 65536 + y * 256 + z; one or two bytes at the end are two or three characters, as if zeros followed, and the fill |
| `Base64Tables.DecodeByTable` | src/common/jwt-cpp/base.h:131-187 | Text is decoded if and only if it is characters of the table and up to two fills that make up fours; each four characters give the three bytes with that sum, and two or three at the end the one or two bytes of their leading bits |
| `Base64Tables.SextetIsPlace` | src/common/jwt-cpp/base.h:28-58 | The search for a character finds its place in the published table, or nothing |
| `Base64Loops.EncodeBinary` | src/common/jwt-cpp/base.h:82-129 | The loop over triples and the remainder agree with the recursive encoding |
| `Base64Loops.DecodeText` | src/common/jwt-cpp/base.h:131-187 | The loop that counts fills and the loop over quadruples agree with the recursive decoding, errors included |
| `Base64Loops.DecodeGroups` | src/common/jwt-cpp/base.h:158-170 | The loop over complete quadruples |
| `Base64Loops.GetSextet` | src/common/jwt-cpp/base.h:151-156 | The linear search finds the index of the character, or there is none |
| `JwtTheorems.TokenAcceptance` | src/daemon/rest/RestBase.cpp:168-269 | A created token is accepted with its salt at time t if and only if its user exists, is not locked, and t, in nanoseconds, lies between the whole seconds of issue and of expiry; with another salt if and only if also the two codes agree |
| `JwtTheorems.TokenRoundTrip` | src/daemon/rest/RestBase.cpp:168-190 | Decoding a created token gives exactly the claims set, plus alg, and the signature of its first two parts |
| `JwtTheorems.VerifyTokenAccepts` | src/daemon/rest/RestBase.cpp:237-269 | Any text is accepted for a user and group if and only if it decodes, its code is right, issuer, algorithm, user and group are as required, and each of exp, iat and nbf is absent or a time of the 64-bit nanosecond clock that allows the present |
| `JwtTheorems.VerifyAccepts` | src/common/jwt-cpp/jwt.h:2759-2873 | Whatever a verifier wants, and in whatever order its hash table is walked: a decoded token passes if and only if algorithm and code are right, the time lies in the window stretched by the leeways, and every wanted claim is held, the audience by inclusion |
| `JwtTheorems.FarExpiry` | src/common/jwt-cpp/jwt.h:1936-1936 | A rightly signed token whose exp is beyond the clock, such as 10000000000, is never accepted: the time overflows |
| `JwtTheorems.TokenNamesItsUser` | src/daemon/rest/RestBase.cpp:237-269 | A created token is accepted for no other user or group |
| `JwtTheorems.DecodeSigned` | src/common/jwt-cpp/jwt.h:2310-2325 | A token signed from any claims decodes to those claims and the algorithm if and only if header and payload keep to the JSON depth limit |
| `JwtTheorems.PartRoundTrip` | src/common/jwt-cpp/jwt.h:2571-2584 | A part of a token decodes to what was encoded and has no dot in it |
| `JwtTheorems.UserClaimsAre` | src/daemon/rest/RestBase.cpp:181-187 | The claims of a user token are the five that were set, and no others |
| `JwtTheorems.LookupInsert` | src/common/jwt-cpp/jwt.h:2416-2429 | Setting a claim changes that claim and no other |
| `JwtTheorems.CheckTimesAccepts` | src/common/jwt-cpp/jwt.h:2818-2847 | The time checks pass if and only if each time claim is absent or, like its leeway and their sum, a time of the clock, and the stretched time allows the present |
| `JwtTheorems.CheckEqualThrows` | src/common/jwt-cpp/jwt.h:2771-2811 | A wanted claim that is not met fails with the exception of its case: missing, of a kind without comparison, of another kind, not a time or not a set of strings, or different |
| `JwtTheorems.VerifyThrows` | src/common/jwt-cpp/jwt.h:2755-2873 | Of several reasons to refuse a token the first counts, in the order of the checks: no algorithm, another one, a wrong code, a time outside its window |
| `JwtTheorems.VerifyTokenThrows` | src/daemon/rest/RestBase.cpp:237-269 | A token that does not decode, names no user, an unknown or a locked one is refused as such, before it is verified; no token is made for an empty user |
| `JwtTheorems.DecodeThrows` | src/common/jwt-cpp/jwt.h:2310-2325 | Text with fewer than two dots is no token; of three parts, one that is no base64url, then a header and then a payload that is no JSON or no object, say how it fails |
| `JwtClasses.HmacSha.Verify` | src/common/jwt-cpp/jwt.h:728-741 | The byte-wise comparison accepts if and only if the code is equal |
| `JwtClasses.Builder.SetHeaderClaim` | src/common/jwt-cpp/jwt.h:2395-2409 | One header claim is set |
| `JwtClasses.Builder.SetPayloadClaim` | src/common/jwt-cpp/jwt.h:2416-2429 | One payload claim is set |
| `JwtClasses.Builder.SignWith` | src/common/jwt-cpp/jwt.h:2571-2584 | The compact form: header, payload and signature, trimmed base64url, joined by dots; the builder is unchanged |
| `JwtClasses.DecodeJwt` | src/common/jwt-cpp/jwt.h:2310-2325 | Splits at the first two dots and decodes the parts, with an error for each way to fail |
| `JwtClasses.ParseClaimsOf` | src/common/jwt-cpp/jwt.h:2022-2027 | The claims of a JSON object; other JSON and other text fail |
| `JwtClasses.Verifier.VerifyDecoded` | src/common/jwt-cpp/jwt.h:2759-2873 | Algorithm, signature, times with their leeways and then the claims, in the order of the hash table and up to the first that is not met, with its kind of error |
| `JwtClasses.CreateJwtToken` | src/daemon/rest/RestBase.cpp:168-190 | The builder chain makes the token of the model; an empty user is refused |
| `JwtClasses.VerifyJwtToken` | src/daemon/rest/RestBase.cpp:237-269 | Decoding, user checks and the verifier chain agree with the model |
| `CronTermination.CronNextEnds` | src/common/croncpp.h:888-915 | For every parsed expression cron_next ends and gives INVALID_TIME or a strictly later time, in a month of the set, on a day that matches or that 366 days without a match lead to, with clock fields in their sets or zero; from the epoch on it throws nothing. Where no recheck that matters is skipped the expression describes the time; with a day field that does not restrict none is |
| `CronRecheck.MatchesUnlessSkipped` | src/common/croncpp.h:888-915 | All times given from the epoch on are described by the expression if and only if, from every day whose search lands on another day of the same number in a month of the set, that day matches and zero is in all sets of the clock |
| `CronRecheck.SkippedRecheck` | src/common/croncpp.h:790-807 | The 30th second of midnight on a first that is a Sunday: asked at 00:00:30 on 1970-01-01 the search gives 00:00:00 on 1970-02-01 |
| `CronTheorems.CronNextIsLater` | src/common/croncpp.h:888-915 | For every parsed expression, every time that is returned is strictly later |
| `CronEarliest.CronNextIsRight` | src/common/croncpp.h:888-915 | Where no recheck that matters is skipped and no month is lost, cron_next gives the earliest later time that the expression describes, or INVALID_TIME because there is none up to the fourth year after, from every time whose second is in the set or in no gap of it, and from every time that matches but for its second |
| `CronAlways.RightExactly` | src/common/croncpp.h:888-915 | For every parsed expression: all answers from the epoch on are right, the earliest later time or INVALID_TIME for want of one, if and only if from no day a recheck that matters is skipped, from no day a month too short for the day is gone to that has a day that matches, and the seconds of the set are without a gap or no other field restricts |
| `CronHorizon.FindsWithinFourYears` | src/common/croncpp.h:888-915 | For every expression for which that holds: INVALID_TIME is given only if no described time comes before the fifth year after the one that is asked in, and any other answer is the first described time |
| `CronHorizon.NewYears` | src/common/croncpp.h:820-821 | Midnight of New Year on a given weekday, asked on a New Year of another weekday: the first of the next four that is on it is given, and INVALID_TIME if none of them is |
| `CronHorizon.NextLeapDay` | src/common/croncpp.h:809-823 | Midnight of 29 February, asked at any time: the next leap day is given if it comes in the year of the question or in one of the four years after it |
| `CronEarliest.FitLosesNone` | src/common/croncpp.h:809-823 | No month is lost if all months are in the set, or if one day field does not restrict and every day of the set is in every month of the set |
| `CronAlways.StaleSecond` | src/common/croncpp.h:731-765 | Seconds 0 and 30 of minute five of every hour, asked at 00:00:10: the second is set before the minute and not reset, so 00:05:30 is given and not 00:05:00 |
| `CronAlways.ShortMonth` | src/common/croncpp.h:809-823 | Midnights of February, asked on 1970-01-31: the month is set on a day that February has not, so 1971-02-01 is given and not 1970-02-01 |
| `CronMonths.MonthLands` | src/common/croncpp.h:666-691 | Setting the month goes to midnight of its first day, or of the first day of the month after it if it is too short for the day of the month |
| `CronTheorems.NextMatches` | src/common/croncpp.h:721-830 | Where no recheck that matters is skipped, every time that find_next reaches is described by the expression |
| `CronTheorems.FullNeverSkips` | src/common/croncpp.h:790-807 | A day field that does not restrict excludes it |
| `CronTheorems.NextIsForward` | src/common/croncpp.h:721-830 | find_next never goes back |
| `CronTermination.NextSettles` | src/common/croncpp.h:721-830 | For every parsed expression the recursion is no deeper than a bound from the year budget, the days to the next match and the minutes left in the day, and what it finds is tidy and needs no more |
| `CronTermination.NextFuel` | src/common/croncpp.h:721-830 | The depth the model allows makes no difference once it is enough |
| `CronTheorems.DayLands` | src/common/croncpp.h:694-718 | The day search ends on the next matching day, or 366 days on |
| `CronDays.DayComes` | src/common/croncpp.h:702-707 | Whatever days of the month and of the week an expression restricts itself to, a day that matches both comes within three years |
| `CronTheorems.MatchAhead` | src/common/croncpp.h:702-707 | A matching day comes within the 366 days that are tried |
| `CronSteps.MonthsAndYears` | src/common/croncpp.h:547-611 | Adding twelve months is adding one year, in January one month is 31 days and one year 365 or 366, and years are set as years since 1900 |
| `CronSteps.ClockSearch` | src/common/croncpp.h:666-691 | A second, minute or hour that is not in its set goes to the next one that is, carrying at most once, and marked fields below become zero |
| `CronSteps.DaySearch` | src/common/croncpp.h:694-718 | The day search passes only days that do not match |
| `CronSteps.MonthSearch` | src/common/croncpp.h:666-691 | A month that is not in its set goes to a later day, overflow of long days included |
| `CronSteps.ResetStaysInMonth` | src/common/croncpp.h:646-655 | Resetting marked fields, the day included, does not leave the month |
| `Calendar.MkTimeFromTime` | src/common/croncpp.h:248-262 | mktime after localtime_r gives the time back |
| `Calendar.FromTimeMkTime` | src/common/croncpp.h:248-262 | localtime_r after mktime gives back broken-down times whose fields are in range |
| `Calendar.FromTimeIsNormal` | src/common/croncpp.h:248-251 | Every time breaks down into fields in range: with the row above, those are exactly the broken-down times there are |
| `Calendar.DateUnique` | src/common/croncpp.h:248-251 | A day has one year, month and day of the month |
| `Calendar.TimeTicks` | src/common/croncpp.h:248-251 | The epoch is 00:00:00 on Thursday, 1 January 1970, and one second on from any time the fields are those of a clock with months of 31, 28 or 29, 31, 30, 31, 30, 31, 31, 30, 31, 30 and 31 days, the second longer in every fourth year but for three of four centuries |
| `Calendar.MkTimeCarries` | src/common/croncpp.h:252-262 | Fields out of range carry: twelve months are a year, and days, hours, minutes and seconds add up |
| `CronDate.Date.Add` | src/common/croncpp.h:547-577 | Adding to a field and normalising |
| `CronDate.Date.Set` | src/common/croncpp.h:579-611 | Setting a field and normalising |
| `CronDate.Date.Reset` | src/common/croncpp.h:613-644 | Resetting a field and normalising |
| `CronDate.Date.ResetAllFields` | src/common/croncpp.h:646-655 | The loop over the marked fields |
| `CronDate.Date.FindInField` | src/common/croncpp.h:666-691 | find_next of one field on the shared date |
| `CronDate.Date.FindNextDay` | src/common/croncpp.h:694-718 | The loop over days |
| `CronDate.Date.FindNextTime` | src/common/croncpp.h:721-830 | The recursive search on the shared date, wherever it ends |
| `CronDate.FirstBit` | src/common/croncpp.h:532-545 | The loop finds the first bit from an offset, or there is none |
| `CronDate.CronSearch` | src/common/croncpp.h:888-915 | cron_next, with its second search when the first stands still |
| `CronDate.CronNextTime` | src/common/croncpp.h:888-915 | cron_next on the shared date, for every parsed expression |
| `CronFields.VisitedExactly` | src/common/croncpp.h:461-464 | The 8-bit loop sets exactly the bits of the progression if and only if its first step stays below 256, as all increments up to 196 do |
| `CronFields.FieldIsUnion` | src/common/croncpp.h:421-466 | The bits of a field are exactly the union of what its comma parts describe |
| `CronFields.FieldBitsAreUnion` | src/common/croncpp.h:409-467 | For increments up to 196, a bit of an accepted field is set if and only if one of its comma parts describes it |
| `CronFields.BitsInField` | src/common/croncpp.h:421-466 | For every increment from 1 to 255 a bit is set and none outside the field |
| `CronFields.SetCronField` | src/common/croncpp.h:409-467 | The nested loops end for every increment and set the bits of the model, errors included |
| `CronFields.MakeRange` | src/common/croncpp.h:365-406 | An accepted range lies in the field and is not reversed |
| `CronFields.MakePart` | src/common/croncpp.h:421-459 | An accepted part lies in the field and has an increment from 1 to 255 |
| `CronFields.FieldBits` | src/common/croncpp.h:409-467 | An accepted field has a bit set, and none beyond its bitset |
| `CronExpression.MakeCron` | src/common/croncpp.h:833-861 | An accepted expression has six accepted fields (what they mean: `CronText.ExpressionMeans`) |
| `CronExpression.OpenDayField` | src/common/croncpp.h:469-507 | A star or question mark as day of the month or of the week leaves that field free |
| `CronExpression.StarIsFull` | src/common/croncpp.h:372-376 | A star sets every bit of its field |
| `CronText.ExpressionMeans` | src/common/croncpp.h:833-861 | The six fields, with one blank or more between them, are seconds 0-59, minutes 0-59, hours 0-23, days 1-31 or a question mark, months 1-12 or names, weekdays 0-6 from Sunday on or names or a question mark: the text is accepted if and only if every comma item is in its range, and a bit is then set if and only if an item describes its number |
| `CronText.DescribedMeans` | src/common/croncpp.h:833-861 | The times that the search looks for are those whose second, minute, hour, day, month and weekday the items describe |
| `CronText.NamedIsNumbered` | src/common/croncpp.h:351-363 | Names of weekdays or months in any case, each once and apart from each other, are replaced by their numbers, and nothing else is changed |
| `CronText.DaysAreNames` | src/common/croncpp.h:88-88 | SUN to SAT are the weekdays 0 to 6 |
| `CronText.MonthsAreNames` | src/common/croncpp.h:89-89 | JAN to DEC are the months 1 to 12 |
| `CronMeaning.FieldMeans` | src/common/croncpp.h:409-467 | A field of items *, a, a-b, */k, a/k and a-b/k, with commas between them and numbers taken modulo 256, is accepted if and only if all are in range and no step is zero; its bits are then the numbers that an item describes, as long as no first step reaches 256 |
| `CronMeaning.PartOfItem` | src/common/croncpp.h:421-459 | Each of the six forms of an item is accepted if and only if its numbers are in the field and ascend and its step is not zero |
| `CronMeaning.CronIntReads` | src/common/croncpp.h:339-349 | Of any text the digits behind white space and a sign are read, as a 64-bit number cut to eight bits; text without digits and numbers from 2^64 on are refused |
| `PrettyJson.PrettyPreserves` | src/common/Utility.cpp:651-730 | For text with well-formed strings: the same text without white space outside strings, the same string literals, well-formed again, and unchanged by a second run |
| `PrettyJson.IndentedByDepth` | src/common/Utility.cpp:667-698 | What is written after a part of the text is indented by the number of brackets open there |
| `PrettyJson.LinesAreIndented` | src/common/Utility.cpp:667-698 | After every line break outside strings stand exactly two blanks for each open bracket, one bracket less counting where the line begins with one that closes |
| `PrettyJson.LinesBreak` | src/common/Utility.cpp:660-715 | Outside strings a line breaks after every opening bracket and comma and before every closing bracket, and nowhere else; a colon has one blank behind it, and there are no others |
| `PrettyJson.PrettyText` | src/common/Utility.cpp:651-730 | The character loop with its three state variables agrees with the recursive form |
| `AtomicCells.NoChangeIsLost` | src/prom_exporter/gauge.cc:19-23 | In every state of every interleaving of compare-exchange loops each cell holds its start and every finished change once |
| `AtomicCells.UndisturbedFinishes` | src/prom_exporter/gauge.cc:19-23 | A thread left alone finishes its change in two steps |
| `AtomicCells.StepKeeps` | src/prom_exporter/gauge.cc:19-23 | Every atomic step keeps the account |
| `Histogram.ObservationsCollected` | src/prom_exporter/histogram.cc:46-64 | Once all calls of Observe have returned, from any number of threads with any number of calls each, cumulative bucket i is the number of values at most boundary i, the last is the number of values, and the sum is theirs |
| `Histogram.CellsHold` | src/prom_exporter/histogram.cc:20-29 | In every state of every interleaving a bucket counts exactly the calls that have returned, and the sum is that of the values added to it by then |
| `Histogram.CollectedMeanwhile` | src/prom_exporter/histogram.cc:46-64 | Collect reads the cells one after another while the threads run: cumulative buckets do not descend, and each counts all calls that had returned when it began and none that had not when that bucket was read |
| `Histogram.ObserveMultipleAdds` | src/prom_exporter/histogram.cc:31-44 | Wrong lengths are refused; otherwise each non-negative increment is added to its bucket and the sum to the sum |
| `Histogram.IncrementsAdd` | src/prom_exporter/counter.cc:7-12 | A counter takes non-negative increments and ignores negative ones |
| `Histogram.FindBucket` | src/prom_exporter/histogram.cc:20-26 | The search finds the first boundary that is not below the value |
| `Histogram.CountBeforeIsUpTo` | src/prom_exporter/histogram.cc:20-29 | With sorted boundaries the buckets up to one hold the values at most its boundary |
| `Histogram.Collect` | src/prom_exporter/histogram.cc:46-64 | The running totals of the buckets read one after another, and the sum |
| `OrderedKeys.LessIsLexicographic` | src/daemon/consul/Scheduler.cpp:16-16 | The keys of a map are visited in the order of std::string: by the first place where they differ, and a string before those that begin with it |
| `Decimal.ValueOfPlaces` | src/common/DurationParse.cpp:177-180 | A numeral is read in decimal places: the first digit counts as many tens as digits follow it |
| `Decimal.NoLeadingZero` | src/common/DurationParse.cpp:131-175 | Only the numeral of zero is written with a zero in front |
| `Duration.ParseCompose` | src/common/DurationParse.cpp:12-102 | parse(compose(t)) == max(t, 0) for every 32-bit t, with no overflow |
| `Duration.ParseComposeWeeks` | src/common/DurationParse.cpp:12-102 | parse(compose(t, true)) is max(t, 0) rounded down to whole weeks |
| `Duration.MinutesAfterT` | src/common/DurationParse.cpp:131-175 | Every M that is written stands after a T |
| `Duration.MatchesDateTime` | src/common/DurationParse.cpp:9-9 | Every text of the date-time grammar is matched, with the groups it is made of |
| `Duration.MatchesWeek` | src/common/DurationParse.cpp:8-8 | Every text of the week grammar is matched |
| `Duration.MatchIsSound` | src/common/DurationParse.cpp:8-9 | Only texts of the two grammars are matched |
| `Duration.ParseSpec` | src/common/DurationParse.cpp:12-129 | Any text of years, months, days, hours, minutes and seconds, each there or not, is read as 31536000 y + 86400 d + 3600 h + 60 m + s if that fits an int and overflows otherwise; months other than zero are refused |
| `Duration.ParseWeeks` | src/common/DurationParse.cpp:12-129 | PnW is read as 604800 n, or overflows |
| `Duration.ParseNumber` | src/common/DurationParse.cpp:12-30 | A plain number is read as itself if it fits an int, and is out of range otherwise |
| `Duration.ComposeMeans` | src/common/DurationParse.cpp:81-175 | A time is written as its days, and the hours below 24, minutes below 60 and seconds below 60 of the day, each if it is not zero, and as its full weeks in week mode |
| `Duration.ParseDuration` | src/common/DurationParse.cpp:12-79 | The loop over the groups agrees with the model, errors and overflow included |
| `Duration.ComposeDuration` | src/common/DurationParse.cpp:81-102 | The four parts, written by reference one after another, make the text |
| `Duration.Composition.ComposePart` | src/common/DurationParse.cpp:131-175 | As many units as fit are taken, and written behind one T if they are time |
| `Duration.SumOfParts` | src/common/DurationParse.cpp:104-129 | The parts of a 32-bit duration add up without overflow |

## Left out

Weaker than the source, or less than it does:

- WildcardsCompleteness.MatchesExactly: sufficient for a whole pattern, exact for a branch (`TakesEveryWord`); other patterns are only claimed to be sound. `match_alt` commits to the first partial match, as `StarInBranchMisses` shows.
- CronTermination.CronNextEnds: the depth of the recursion is a parameter of the model, and `NextFuel` shows that it makes no difference.
- JwtTheorems.TokenAcceptance: a failing HMAC, which OpenSSL reports as an error, does not occur.
- JwtClasses.Verifier.VerifyDecoded: the default leeway is zero and one algorithm is allowed; nothing in the repository sets another or allows a second.
- ConsulConnection.ConsulConnection.DoSchedule: the turn of a leader; sessions and the election of the leader are not modelled.
- ConsulConnection.RetrieveTask: from the tasks' fields on; that they are decoded from base64 and JSON, under the keys of the server, is not modelled.
- ConsulConnection.RetrieveNode: the same for nodes.
- JsonRoundTrip.ReadSerialized: doubles, which are printed with a loss, are not part of the round trip; the reader knows them by their numeral only.
- WildcardsSyntax.TextMeans: a special character that stands for itself without a backslash, such as a bracket that opens nothing, is in none of its texts.
- CronMeaning.FieldMeans: items whose numbers are plain numerals; signs and white space before a number, which `CronIntReads` reads, are in no item.
- CronText.NamedIsNumbered: a name that is there twice, of which the second is not replaced, is not among its texts.
- Histogram.ObservationsCollected: numbers are exact; rounding of doubles is not modelled, nor is a width of the running total.

Not modelled:

- HTTP to Consul, blocking watches, session renewal and leader election: `ConsulConnection` works on an abstract key-value store whose writes may fail, and `DoSchedule` starts as leader.
- The text of schedule times and their time zone: only the truncation to whole seconds that it causes.
- Labels and topologies are values, without the mutex of `Label` and without sharing; the key of a node in a map is its host name, and the key of a task is the name of its app.
- JSON bodies of tasks and nodes (priority, ports, content): only what scheduling reads.
- Sets and alternatives switched off, and other special characters than the default ones, in the matcher.
- `default_parse_context` as an object that writes through a pointer: the parser methods return the value and pass the depth on; the `null` and `deny` contexts.
- RSA, ECDSA and EdDSA and the `none` algorithm: a verifier allows one HMAC; the `Bearer ` prefix of the header.
- The overload of `cron_next` on `std::tm`, the Oracle and Quartz traits, daylight saving and other time zones; comparison and printing of expressions. A numeral that overflows `strtod` is not told from others.
- Regular expressions of durations: recognisers for the two grammars stand for them. Logging everywhere.
- Termination of the compare-exchange loops under contention: they are lock-free, not wait-free, so the threads are a state machine (`UndisturbedFinishes` is what they do guarantee).
- `Application`, `TimerHandler`, processes and containers: dominated by the operating system. `AppTimer`: its windows are not kept by the late and overnight branches. Summaries and registries of the exporter, roles and permissions, the command line, and files of cgroups: easy members or plumbing.
