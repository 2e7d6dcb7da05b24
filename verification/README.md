# A verified model of ejudge's encoders, packets, rule lists and logs

ejudge is a contest system written in C. This project models its self-contained cores in Dafny 4.11 and proves
what they promise. `dafny verify dfyconfig.toml` checks everything.

Each core has a *meaning* (functions on plain values: groups of a text, parts of a packet, a list of rules, a list
of records) and the *code*: methods with the loops, cursors, buffers and in-place updates of the C functions,
proved equal to the meaning. The promises are then theorems about the meaning, for all inputs or all runs.

| file | what it models |
|---|---|
| `c_types.dfy` | C ints (every stored value is proved to fit), C strings, bits of bytes |
| `url_text.dfy`, `bit_groups.dfy`, `url_codec.dfy` | the text form of a bitset: its grammar, the grouping of a set, the laws of both |
| `bitset.dfy` | `bitset.c` itself: both passes of encoder and decoder, comparison, resizing |
| `packet_bytes.dfy`, `compile_request.dfy`, `compile_request_laws.dfy` | layout of compile request packets, what writer and reader mean, their laws |
| `compile_request_fields.dfy` | what comes back field by field, and what stands where in a packet |
| `compile_packet.dfy` | the request writer (sizing pass, filling pass) and the cursor parser |
| `compile_reply.dfy`, `compile_service.dfy` | reply packets; from an accepted request to its reply |
| `base64.dfy` | the coder that spreads and squeezes bits in one 32-bit word |
| `ip_rules.dfy` | ordered IP rules on linked siblings |
| `clar_subject.dfy`, `clarlog.dfy` | the UTF-8 subject cut; the clarification log and its file |
| `submit_blocks.dfy` | the blocks of run numbers by which a reply finds its packet |
| `batch_server.dfy`, `batch_laws.dfy` | the batch server as a state machine: what every step keeps, what stops it |
| `batch_verdicts.dfy` | which verdicts are stored |
| `batch.dfy` | the batch server itself: packets of submits from the spool to their verdicts |
| `cgi.dfy`, `csv.dfy`, `spool_name.dfy` | form decoding, CSV parsing, packet names |

Conventions. A C `int` that takes part in arithmetic has the type `CInt`, so that the absence of signed overflow is
proved; inputs for which C leaves the outcome undefined are excluded by a precondition and named below. Failing
calls into the system (writes, child processes, parsers of other packets) are arguments of the methods: each theorem
holds for every outcome of them unless it says otherwise.

Results that deserve attention, because the code does less than one would expect. Each has its exact condition, for
all inputs, and an input that shows it:

- `bitset_url_decode` refuses texts that `bitset_url_encode` writes: `UrlCodec.RoundTrip` gives the condition (no
  group starts at 999999936 or above), `UrlCodec.FarMemberRefused` a set on the wrong side of it.
- `bitset_is_equal` ignores bits between `size` and the end of the last byte, while the encoder writes them:
  `Bitset.DecodedCopyIsEqual` says that the decoded copy is equal exactly when there are none, and
  `Bitset.StrayBitIsLost` runs a set that has one.
- Re-writing a request that was read gives the same bytes exactly for canonical packets:
  `CompileRequestLaws.RewriteRead`; `CompileRequestLaws.PaddingIsLost` has one that is not.
- Memory and file of the clarification log part when `clar_put_record` skips an id, and exactly then:
  `ClarLog.ClarLogState.PutRecord` and `ClarLog.HoleWitness`. Opening the log rewrites records whose `from` or `to` is
  -1: `ClarLog.FixesNothing` and `ClarLog.NobodyIsLost`.
- `csv_parse` trims fields in front of a newline and gives up on a blank start: `Csv.RoundTrip` is an equivalence,
  `Csv.BlankIsLost` a table that is not read back.
- The batch server never gives run numbers back, not even those of finished packets, so it aborts on a packet after
  the numbers have wrapped exactly when an earlier packet had one of the first numbers: `BatchLaws.WrapStops` and
  `BatchLaws.WrapWitness`. It aborts on a packet without submits: `BatchLaws.ArrivalStops` and
  `BatchLaws.EmptyPacketStops`.
- It does not notice a second answer to a request. A reply reaches a packet that has been freed exactly when a
  finalized packet had its run number: `BatchLaws.ReachesFreed` and `BatchLaws.LateReply`.
- A second verdict counts down like the first, so a packet is completed although submits wait exactly when at least as
  many verdicts came for submits that did not wait: `BatchLaws.EarlyExactly`, for the first such verdict
  `BatchLaws.FirstWrongVerdict`, and `BatchLaws.LostVerdict` loses a verdict that way. `BatchLaws.RunAgain` says that
  over a run none was misplaced exactly when each verdict was awaited.

## Model

| member | source | states |
|---|---|---|
| CTypes.BitMasks | bitset.h:45-62 | member 8k + j of a set is bit j of byte k, for each of the eight masks |
| UrlText.DigitOrder | bitset.c:26-27 | the digits 0 to 61 are the decimal digits and the letters in the order of ASCII, then come '-' and '_' |
| UrlText.EncodeDecodeDigit | bitset.c:28-46 | a character that the decoding table knows is the digit of its value |
| UrlText.NumTextDigit | bitset.c:288-309 | the digit of weight 64^k stands k places before the end, and a number has no leading zero |
| UrlText.ParseConcat | bitset.c:70-117 | a text that the checking pass accepts keeps its groups when any text follows, and what follows is read on its own |
| UrlText.ParseNumText | bitset.c:77-86 | a written base-64 number is read back exactly when it is below 64 times the decoder's digit limit |
| UrlText.ParseGroup | bitset.c:70-117 | one written group is read back as that group, using just its own characters, exactly when start and bitmap length are below the limit; otherwise it is refused |
| UrlText.ParseTextOf | bitset.c:70-117 | the checking pass accepts the text of a list of groups exactly when every start and length is below the limit, and finds that list |
| UrlText.ZeroSkipped | bitset.c:70-76 | a character '0' where a group could start is skipped |
| UrlText.EmptyBitmapIsSingle | bitset.c:98-103 | a bitmap of length zero, which is never written, stands for the start alone |
| UrlText.TruncatedIsRefused | bitset.c:70-117 | the text of a group with anything missing at its end is refused |
| BitGroups.TrimUnique | bitset.c:199-207 | two sets with the same members have the same bits up to the highest member, whatever their sizes |
| BitGroups.BitmapMembers | bitset.c:310-324 | the packed bitmap of an interval holds the members in it and no others |
| BitGroups.GroupsMembers | bitset.c:258-331 | cutting a set into groups, with short gaps merged and long gaps broken, neither loses nor adds a member |
| BitGroups.SetGroupsMembers | bitset.c:189-331 | the groups of a set hold exactly its members |
| BitGroups.GroupEndIs | bitset.c:213-239 | a group ends where its bitmap would go on with at least five characters of zeros, and inside it there are never five of them |
| BitGroups.SetGroupsAreCut | bitset.c:213-331 | no bitmap of a set has five empty characters in a row, an empty first or last one, or just one member; and between two neighbouring groups a common bitmap would have at least five empty characters |
| BitGroups.GroupsText | bitset.c:209-253 | every group of a set of C ints is writable with one-digit lengths, and the whole text is short enough for the decoder's length check |
| UrlCodec.MaxOfIsMax | bitset.c:70-117 | the maximum tracked by the checking pass is the largest member of the groups |
| UrlCodec.ShortTextFitsInt | bitset.c:60-165 | a text of at most 191247273 characters cannot make the decoder leave int arithmetic, be it accepted or refused |
| UrlCodec.EncodedFitsInt | bitset.c:52-165 | nor can the text of any set, however long |
| UrlCodec.RoundTrip | bitset.c:52-165 | decoding accepts the text of a set if and only if no group starts at 999999936 or above, and then finds exactly the members |
| UrlCodec.NearMembersAccepted | bitset.c:79-86 | hence the text of every set with members below 999999936 is accepted |
| UrlCodec.FarMemberRefused | bitset.c:79-86 | the limit is real: the text of the set {999999936} is refused |
| UrlCodec.GroupsOfZeroAnd | bitset.c:225-230 | the set {0, n} is one group up to n = 35 and two groups from 36 on |
| UrlCodec.TextOfOneGroup | bitset.c:255-333 | the text of {0, 35} is "1016" and "10000W" |
| UrlCodec.TextOfTwoGroups | bitset.c:255-333 | the text of {0, 36} is "1001a0" |
| UrlCodec.Canonical | bitset.c:181-334 | two sets have the same text if and only if they have the same members |
| UrlCodec.JoinIsUnion | bitset.c:70-156 | accepted texts written one after the other are accepted and give the union |
| Bitset.BitSet.Resize | bitset.c:382-395 | grows to the new size when that is larger and at most 10^9, otherwise nothing changes; never gains or loses a member |
| Bitset.IsEqual | bitset.c:337-370 | returns 1 if and only if the two bitsets, null ones included, agree on every index as `bitset_safe_get` sees it |
| Bitset.XorBit | bitset.c:354-357 | the exclusive-or test of the comparison finds just the differing bits |
| Bitset.GetNumLen | bitset.c:168-178 | the number of base-64 digits of a non-negative int, 0 for a negative one |
| Bitset.LowestMember | bitset.c:189-198 | the smallest member, -1 when no byte holds a bit |
| Bitset.HighestMember | bitset.c:199-207 | the largest member, -1 when no byte holds a bit |
| Bitset.SkipGap | bitset.c:219-222 | the unbounded search for the next member stops at it, at or before the largest member |
| Bitset.FindGroupEnd | bitset.c:213-239 | the end of the group: the last member in front of it, no five empty bitmap characters before it, and five of them between it and the next member |
| Bitset.CountSize | bitset.c:209-253 | the sizing pass counts exactly the characters of the text, at most 10^9 |
| Bitset.PutNumber | bitset.c:288-309 | appends the length of a number and its digits, written from the last to the first |
| Bitset.PutBitmap | bitset.c:310-324 | appends the bitmap of an interval, six members to a character, the last character padded |
| Bitset.FillText | bitset.c:255-333 | the filling pass writes exactly the text whose size the sizing pass counted |
| Bitset.UrlEncode | bitset.c:181-334 | a fresh string, the text of the set with a NUL, in a buffer without a spare byte; the empty text for null and empty sets |
| Bitset.CheckText | bitset.c:70-117 | the checking pass accepts exactly the texts of the grammar and finds their largest member |
| Bitset.WriteText | bitset.c:119-156 | on an accepted text the unchecked pass stays inside `str` and `set` and turns on exactly the members of the groups that the checking pass found |
| Bitset.UrlDecode | bitset.c:52-165 | 0 exactly for accepted texts of at most 10^9 characters; then the set is the union of the groups, its size the largest member + 1 and no stray bit is on; otherwise the set is empty |
| Bitset.SameTextIsEqual | bitset.c:337-370 | clean bitsets of whatever sizes have the same text if and only if `bitset_is_equal` calls them equal |
| Bitset.DecodedCopyIsEqual | bitset.c:337-370 | a decoded copy is called equal to its original if and only if the original has no bit on past its size |
| Bitset.StrayBit | bitset.c:337-370 | size 1 and the byte 2 make a valid bitset with a bit past its size |
| Bitset.StrayBitIsLost | bitset.c:337-370 | encoding, decoding and comparing that bitset returns 0 |
| Bitset.EncodeDecodeCompare | bitset.c:52-370 | encode, decode, compare: success exactly under the limit on starts, the same members, and the verdict of the comparison |
| Bitset.ResizeThenEncode | bitset.c:382-395 | resizing never changes the text |
| PacketBytes.WordsRead | compile_packet_1.c:56-95 | words stored as little-endian bytes are read back as the same words |
| PacketBytes.WordsWritten | compile_packet_1.c:56-95 | bytes read as words are written back as the same bytes |
| PacketBytes.LittleEndian | compile_packet_priv.h:27 | the lowest byte of a word stands first |
| PacketBytes.TwosComplement | compile_packet_2.c:123-150 | an int is stored as the word congruent to it |
| CompileRequestLaws.PartsTaken | compile_packet_1.c:97-181 | the parser takes the parts out of a laid-out packet unchanged and its cursor ends at the end of the packet |
| CompileRequestLaws.HeaderRead | compile_packet_1.c:56-95 | every header field the writer stores passes the reader's checks and comes back as its value, negative ints and 64-bit sizes included |
| CompileRequestLaws.RequestRoundTrip | compile_packet_2.c:52-189 | whatever the writer accepts, the reader accepts, and every field comes back, strings cut at NUL, empty ones absent, -1 replaced by the counted number |
| CompileRequestFields.FieldsComeBack | compile_packet_2.c:40-195 | whatever the writer accepts comes back: every fixed field as it was, strings up to their first NUL, the run block up to its length, and of an environment the given number of variables, all of them for -1 |
| CompileRequestFields.WriterAccepts | compile_packet_2.c:52-121 | the ranges of all fields and the limits on strings and packet, as an equivalence |
| CompileRequestFields.ReaderAccepts | compile_packet_1.c:56-95 | the ranges that the reader checks, at their offsets, as an equivalence; a language may have any number up, for contest 0 any number at all |
| CompileRequestFields.HeaderMeans | compile_packet_priv.h:28-60 | every packet that is read has each field of the request at its own offset |
| CompileRequestFields.StringsMean | compile_packet_1.c:97-136 | style checker, suffix and run block stand behind the header in this order, each at a multiple of 16 |
| CompileRequestFields.EnvsMean | compile_packet_1.c:138-181 | behind them the environment of the compiler and then that of the style checker, each as its lengths and its strings |
| CompileRequestLaws.BodyGaps | compile_packet_1.c:97-181 | for any accepted bytes with zero gaps, laying the parsed parts out again gives the bytes behind the header |
| CompileRequestLaws.RewriteRead | compile_packet_1.c:56-204 | re-writing what was read from any accepted bytes reproduces them if and only if gaps are zero, strings NUL-free and the language within the writer's range |
| CompileRequestLaws.PaddingIsLost | compile_packet_1.c:56-95 | a request of 112 bytes with 1 in the last word of its header is accepted and not re-written to the same bytes |
| CompileRequestLaws.BareRequest | compile_packet_1.c:56-95 | the same bytes for contest 1 and language 1, with a zero there, are an accepted canonical request |
| CompilePacket.CopyBlob | compile_packet_1.c:103-136 | the cursor check on the unaligned length keeps the aligned cursor inside the packet, whose size is a multiple of 16 |
| CompilePacket.CopyEnv | compile_packet_1.c:138-181 | the two loops over an environment take exactly the strings announced by the length array, or refuse |
| CompilePacket.RequestRead | compile_packet_1.c:44-212 | on arbitrary bytes the parser never reads outside the packet, and returns the request of the specification, or refuses |
| CompilePacket.CountSize | compile_packet_2.c:104-121 | the sizing pass gives the length of header and body |
| CompilePacket.PutBody | compile_packet_2.c:151-185 | the filling pass writes the body in order, its cursor ends at the size counted before |
| CompilePacket.CountEnv | compile_packet_2.c:70-77 | -1 is replaced by the number of variables, 0 for a null list; any other count stays |
| CompilePacket.RequestWrite | compile_packet_2.c:40-195 | the writer produces the packet of the specification or null, exactly when a check fails or the packet is too large |
| CompileReply.ReplyRoundTrip | compile_packet_5.c:46-86 | whatever the reply writer accepts, the reply reader accepts, and every field comes back |
| CompileReply.WriterAccepts | compile_packet_5.c:46-70 | which replies are accepted: ranges of all fields and the size limit, as an equivalence |
| CompileReply.ReaderAccepts | compile_packet_4.c:39-96 | which bytes are read as a reply: an equivalence |
| CompileReply.ReplyMeans | compile_packet_priv.h:62-85 | every packet that is read has each field of the reply at its own offset, and the run block behind the header |
| CompileReply.RewriteReply | compile_packet_4.c:39-122 | whatever the reader accepts, the writer accepts too, and it makes the same bytes if and only if all padding is zero |
| CompileReply.ReplyWrite | compile_packet_5.c:39-92 | the reply writer produces the packet of the specification, or null |
| CompileReply.ReplyRead | compile_packet_4.c:39-122 | on arbitrary bytes the reply reader stays inside them and returns the reply of the specification, or refuses |
| CompileService.CheckStyleOnly | compile.c:104-211 | which exit of the style checker gives which status |
| CompileService.CompileStatus | compile.c:358-568 | which outcomes of copying, style checking and compiling give which of the four statuses: an equivalence for each, so that the outcomes determine the status |
| CompileService.ReadRunBlock | compile_packet_1.c:129-136 | an accepted request holds its run block whole, within a packet longer than 112 bytes plus the aligned block |
| CompileService.EveryRequestIsAnswered | compile.c:315-330 | for every accepted request of a contest and every status, the reply passes all writer checks, is shorter than the request, and has the ids, the time, the uuid and the run block of the request and the times of the server |
| CompileService.Serve | compile.c:285-575 | arbitrary packet bytes in, a reply out that the other side reads with the ids, the time, the uuid and the run block of the request, the times of the server and the status its outcomes determine, or nothing for broken and special packets |
| Base64.AlphabetOrder | base64.c:49-50 | table 1 of RFC 4648: capital letters in order, small ones, digits, '+' and '/' |
| Base64.DecodingTable | base64.c:128-147 | the decoding table: values of the alphabet, 65 for '=', 64 for all other bytes |
| Base64.SextetsValue | base64.c:70-82 | the four values of a group are the 24 bits of its bytes, highest first |
| Base64.TestVectors | base64.c:59-107 | the first vectors of section 10 of RFC 4648 |
| Base64.Spread3IsSextets | base64.c:70-82 | six masked additions move the four sextets of a 24-bit group into the four bytes of a word |
| Base64.Encode | base64.c:59-107 | writes the grouping of section 4 of RFC 4648, in 4 * ceil(n / 3) characters |
| Base64.FourInAccumulator | base64.c:195-205 | whatever bits earlier quads left in the accumulator, three squeezing steps give the bytes of the last four characters |
| Base64.ThreeInAccumulator | base64.c:174-181 | the same for three characters in front of one '=' |
| Base64.TwoInAccumulator | base64.c:182-187 | the same for two characters in front of "==" |
| Base64.Decode | base64.c:161-213 | writes what group-wise decoding without bit tricks gives, and the same error flag, on any bytes |
| Base64.DecodedFlag | base64.c:161-213 | flag and number of bytes for any text, by the number of its characters of the alphabet in front of the first '=' and the byte behind it |
| Base64.RoundTrip | base64.c:59-213 | decoding the encoding of any byte array gives it back with flag 0 |
| Base64.JunkIgnored | base64.c:171-173 | bytes outside the alphabet in front of the first '=' change neither output nor flag |
| Base64.JunkTolerance | base64.c:171-212 | inserting such bytes anywhere in front of the first '=' changes neither output nor flag, as section 6.8 of RFC 2045 asks |
| Base64.EncodeDecode | base64.c:59-213 | both procedures run one after the other give back their input with flag 0 |
| IpRules.FirstMatchDecides | contests.c:1281-1286 | the verdict is that of the first matching rule, the default when none matches |
| IpRules.FirstRuleDecides | contests.c:1281-1284 | a first rule whose network holds the address decides when it is for both kinds of connection, -1, or for the right one |
| IpRules.OtherKindIgnored | contests.c:1281-1284 | a rule for another network or for the other kind of connection might as well not be there |
| IpRules.SwapVerdict | contests.c:1272-1287 | exchanging two neighbours changes the verdict for an address if and only if no earlier rule matches and both match with different `allow` |
| IpRules.ForwardThenBackward | contests_2.c:780-816 | forward(n) then backward(n-1) restores the policy, and so do the two in the other order |
| IpRules.Access.LinkLast | expat_iface.c:966-981 | a new child becomes the last one, the siblings stay well linked |
| IpRules.Access.Unlink | expat_iface.c:926-948 | a child leaves the list, its neighbours are linked to each other, at both ends too |
| IpRules.Access.SwapTreeNodes | contests_2.c:746-778 | relinking six pointers exchanges a node with its right neighbour, leaves every other node in its place and the list well formed at both ends |
| IpRules.Slot.AddIp | contests_2.c:680-704 | the rule is appended; a null slot becomes a list that denies by default |
| IpRules.Slot.DeleteIpRule | contests_2.c:722-744 | the n-th rule goes, -1 when there is none; an empty denying list becomes null |
| IpRules.Slot.ForwardIpRule | contests_2.c:780-797 | exchanges rule n with the one before it, -1 and no change when there is none |
| IpRules.Slot.BackwardIpRule | contests_2.c:799-816 | exchanges rule n with the one behind it, -1 and no change when there is none |
| IpRules.Slot.SetDefaultAllow | contests_2.c:648-678 | sets the default, to 0 or 1 when there are rules and to the very argument when there are none; creates or drops the node then |
| IpRules.Slot.CheckIp | contests.c:1272-1287 | the walk over the siblings returns the verdict of the policy, 0 for a null node |
| IpRules.Run | contests_2.c:648-816 | over every run of operations, on any loaded list, the siblings stay a well-formed doubly linked list and refine the plain (rules, default) pair; a node without rules that denies is never made |
| ClarSubject.Boundary | clarlog.c:238-242 | inside valid UTF-8 a prefix is valid if and only if it ends in front of a byte that is no continuation byte |
| ClarSubject.StoredKeepsCharacters | clarlog.c:234-250 | a valid UTF-8 subject stays valid when stored; a long one is its longest whole-character prefix of at most 28 bytes, with three dots |
| ClarSubject.StoredSubject | clarlog.c:234-250 | the loop and the dots produce the stored subject, at most 31 bytes, in both modes |
| ClarLog.ClarLogState.Grow | clarlog.c:183-202 | the new slots are unused, the old ones keep their records |
| ClarLog.ClarLogState.AddRecord | clarlog.c:163-254 | appends a record under the next id that holds every argument in its own field, narrowed to the width of the field, the charset in small letters and cut to 15 bytes, the subject as it is stored; file and memory still agree when the write succeeds, otherwise the file is unchanged |
| ClarLog.EntryHolds | clarlog.c:207-250 | the same of the record itself, and ids besides |
| ClarLog.ClarLogState.PutRecord | clarlog.c:256-286 | refuses used ids; otherwise memory holds the record behind unused slots and the file, unless the write fails, behind zeros; so they still agree if and only if the id was the next free one |
| ClarLog.HoleWitness | clarlog.c:256-286 | a record put on a new log under the id 1 makes memory and file differ |
| ClarLog.ClarLogState.UpdateFlags | clarlog.c:367-382 | changes the flags of one record in memory and file, for ids in use and flags 0..255 only |
| ClarLog.ClarLogState.SetCharset | clarlog.c:384-398 | changes the charset of one record in memory and file |
| ClarLog.ClarLogState.ModifyRecord | clarlog.c:546-601 | replaces just the fields whose bits are set in the mask, each bit for its own field, never id and time, in memory and file |
| ClarLog.ClarLogState.CreateNew | cldb_plugin_file.c:246-286 | an empty log in memory, and in the file as far as it can be written |
| ClarLog.ClarLogState.ReadFile | cldb_plugin_file.c:382-413 | the records of the file as far as they can be read, unused slots behind them; -1 when they cannot all be read |
| ClarLog.ClarLogState.Open | cldb_plugin_file.c:415-475 | the records that can be read, with -1 in `from` and `to` replaced by 0, and -1 as result when some cannot; nothing in memory when the file cannot be opened or is of a later version; memory and file agree if and only if all was read, ids are positions and the repairs were written or not needed |
| ClarLog.FixesNothing | cldb_plugin_file.c:457-473 | opening changes no record if and only if none has -1 in `from` or `to` |
| ClarLog.NobodyIsLost | cldb_plugin_file.c:457-473 | a record with -1 in `from` is one that opening changes |
| ClarLog.RunKeeps | clarlog.c:163-601 | over every run ids are positions, and -1 appears nowhere when no operation stores it |
| ClarLog.AddsAreKept | clarlog.c:163-254 | a run that only adds leaves one record for each operation, in order, with what its arguments say |
| ClarLog.Perform | clarlog.c:163-601 | every operation does to memory and file what it does to the plain list of records, and keeps them in agreement |
| ClarLog.RunAndReopen | cldb_plugin_file.c:416-475 | after any run on a new log, opening the file again rebuilds exactly the same records, when no operation stored -1; after a run of additions, records with what the arguments said |
| SubmitBlocks.OverlapMeans | t3m_submits.c:56-68 | the overlap test of two blocks decides whether some run number of the contest would belong to both |
| SubmitBlocks.AddKeepsDisjoint | t3m_submits.c:39-78 | adding a block that passes the checks leaves no run number in two blocks |
| SubmitBlocks.FindsOwnBlock | t3m_submits.c:101-117 | among disjoint blocks, searching a run number finds the block it belongs to |
| SubmitBlocks.SubmitBlockState.Add | t3m_submits.c:39-78 | appends the block exactly when the numbers are positive and it overlaps no other; otherwise the server stops |
| SubmitBlocks.SubmitBlockState.Find | t3m_submits.c:101-117 | the first block with the run number, none when there is none |
| BatchServer.QueuedSubmits | ej-batch.c:490-609 | taking in a packet queues exactly the submits with nothing wrong |
| BatchServer.FatesAddUp | ej-batch.c:490-609 | every submit is queued, ignored, of wrong format or refused, and the counts add up |
| BatchLaws.AtMostOnce | ej-batch.c:865-974 | no packet is finalized twice, none that is finalized is still in the list, and none stands in the list twice |
| BatchLaws.ReachesLive | t3m_submits.c:101-117 | the contest and run number of any submit of a packet being handled lead to that packet, whatever other packets came before |
| BatchLaws.ReachesExactly | t3m_submits.c:101-117 | a reply reaches a packet being handled if and only if it bears the server's contest and a run number that the packet had |
| BatchLaws.ReachesFreed | ej-batch.c:896-904 | it reaches a packet that was freed if and only if a finalized packet had the number |
| BatchLaws.JudgedKeeps | ej-batch.c:637-643 | any verdict, awaited or not, keeps the law of the counters: pending and processed add up, pending lags behind the waiting submits by the misplaced verdicts, and completed says that pending has come down to 0 |
| BatchLaws.EarlyExactly | ej-batch.c:640-642 | a packet is completed although submits wait if and only if at least as many verdicts were misplaced as submits wait |
| BatchLaws.FirstWrongVerdict | ej-batch.c:640-642 | the first misplaced verdict completes a packet too early if and only if one submit waits |
| BatchLaws.StepKeeps | ej-batch.c:803-1253 | every step, whatever reply comes, keeps: blocks disjoint, one for each packet and no others, names distinct, each packet at most once, and the law of the counters for handled and finalized packets |
| BatchLaws.RunKeeps | ej-batch.c:803-1253 | and so does every run |
| BatchLaws.Conservation | ej-batch.c:490-801 | whatever replies came, pending and processed add up to the submits queued, pending is the number that wait less the misplaced verdicts, and the packet is completed if and only if something was queued and pending is not positive |
| BatchLaws.RunAgain | ej-batch.c:613-801 | over every run that does not stop, no verdict was misplaced if and only if each verdict came for a submit that waited for it |
| BatchLaws.FinalizedHas | ej-batch.c:865-974 | a finalized packet lacks at most as many verdicts as were misplaced; with none misplaced it has verdicts for exactly its queued submits |
| BatchVerdicts.VerdictsAreLast | ej-batch.c:613-801 | over every run: the verdict stored for a submit of a handled or finalized packet is the last that came for its run number, with that status and score, and there is one if and only if one came |
| BatchLaws.KeptHas | ej-batch.c:958-974 | a packet that is not completed survives the check |
| BatchLaws.CompiledStops | ej-batch.c:1043-1117 | the bytes of a compile reply stop the server if and only if they can be read, bear its contest and a number of a freed packet, or report success for a submit that cannot be sent on |
| BatchLaws.TestedStops | ej-batch.c:1186-1253 | a run reply stops it if and only if it bears its contest and a number of a freed packet, or the submit or the report cannot be read |
| BatchLaws.QueuedNeverStops | ej-batch.c:613-801 | no compile reply for a queued submit of a packet being handled stops the server, and a run reply only when its report cannot be parsed |
| BatchLaws.ArrivalStops | ej-batch.c:833-848 | a packet stops the server if and only if it can be read and bound and has no submits or is given a run number that belongs to another packet |
| BatchLaws.NoStopBeforeWrap | ej-batch.c:833-848 | until the numbers wrap at 1000000, no packet with submits stops the server |
| BatchLaws.WrapStops | ej-batch.c:834-848 | after the wrap a packet stops it if and only if an earlier packet, finalized or not, had one of the first numbers |
| BatchLaws.WrapWitness | ej-batch.c:834-848 | two packets, of 1 and of 999998 submits, stop the server |
| BatchLaws.EmptyPacketStops | t3m_submits.c:51-54 | a packet without submits stops the server |
| BatchLaws.LateReply | ej-batch.c:896-904 | a submit, its failed compilation, a check and the same answer again lead to a freed packet |
| BatchLaws.LostVerdict | ej-batch.c:640-642 | two submits, the same failed compilation of the first one twice, and a check: the packet is finalized while the second submit waits |
| BatchLaws.ReplyIsRead | compile_packet_4.c:39-122 | the writer makes such an answer, and the reader takes it |
| Batch.PacketInfo.ProcessSubmit | ej-batch.c:490-609 | a submit is queued, or counted in the counter of its fault, or neither, each under its exact condition |
| Batch.PacketInfo.ProcessCompilePacket | ej-batch.c:613-698 | for any reply: a failed compilation is stored as a verdict with its status and score 0, a good one sends the submit on, a number out of range, another status or a submit that cannot be sent on aborts; the packet is completed when pending has come down to 0; the counters stay right if and only if the submit waited |
| Batch.PacketInfo.ProcessRunPacket | ej-batch.c:758-801 | for any reply: its status and its score are stored as the verdict of its submit and of no other; the packet is completed when pending has come down to 0; the counters stay right if and only if the submit waited |
| Batch.Spool.ProcessPacket | ej-batch.c:803-858 | the run numbers, the block and the queued submits of a packet, exact counters of ignored and malformed submits, and the abort of `submit_block_add` |
| Batch.Spool.SpoolHandler | ej-batch.c:906-956 | a packet is taken in once under its name, marked completed at once when it cannot be read, and stops the server exactly as the state machine says |
| Batch.Spool.FindPacket | t3m_submits.c:101-117 | the packet of the block that a contest and run number lead to; it is in the list unless it was freed |
| Batch.Spool.CompileDirHandler | ej-batch.c:1043-1117 | for any bytes of a compile reply: unreadable ones and those without a block are dropped, any other goes to the packet found by contest and run number, awaited or not |
| Batch.Spool.RunDirHandler | ej-batch.c:1186-1253 | the same for any run reply |
| Batch.Spool.FinalizePacket | ej-batch.c:865-904 | one packet leaves the list, the others stay in order; its error code is that of writing it, or stays -1 |
| Batch.Spool.SpoolChecker | ej-batch.c:958-974 | exactly the completed packets are finalized, whatever stands between them |
| Batch.Perform | ej-batch.c:803-1253 | every event, whatever it is, does to the packets, counters and blocks what it does to the state as a value, and stops when that stops |
| Batch.Run | ej-batch.c:490-1253 | over every run, whatever replies come: all five counters and `completed` of every packet are exact, finalized packets are distinct and no longer in the list, and each lacks at most as many verdicts as were misplaced; none was misplaced if and only if no reply came twice, and then each has verdicts for exactly its queued submits; on a new server every stored verdict is the last one that came for its run number |
| Cgi.HexDigits | cgi.c:92-101 | the values of the sixteen hexadecimal digits, capital and small |
| Cgi.ScanText | cgi.c:81-150 | an encoded text, any mix of plain characters, '+' and escapes, is read as the bytes it stands for, and never as a delimiter |
| Cgi.ReadForm | cgi.c:139-185 | a form of pairs within the size limits is read as the list of its pairs, in order, names and values up to their first NUL |
| Cgi.TooLongIsRefused | cgi.c:149-170 | a name of more than 63 characters or a value of more than 2097152 makes the form unreadable |
| Cgi.BareNameKeepsValue | cgi.c:158-180 | a name without '=' is bound to the value of the pair in front of it |
| Cgi.EqualsInValue | cgi.c:163-167 | a bare '=' inside a value does not end it and is stored as the byte 195 |
| Cgi.LookupIsLast | cgi.c:116-137 | a name is bound to the value given to it last |
| Cgi.FirstOrder | cgi.c:116-137 | names stand in the order of their first appearance, each once |
| Cgi.EscapedDecodes | cgi.c:92-102 | every text has an encoding, with capital and with small hexadecimal digits |
| Cgi.RoundTrip | cgi.c:67-185 | any form, however escaped: names in first-appearance order with the values that came last |
| Cgi.Form.CgiGetChar | cgi.c:81-103 | reads one character, escape or delimiter from any input, bad escapes included |
| Cgi.Form.AddToParamList | cgi.c:116-137 | replaces the parameter of that name or appends it |
| Cgi.Form.DoCgiRead | cgi.c:139-185 | on any input the loops give the parameters of the specification, or -1 for an overlong name or value |
| Cgi.Form.CgiParam | cgi.c:446-455 | the value bound to a name, none when there is none |
| Cgi.ReadAndAsk | cgi.c:139-455 | reading a form and asking for a parameter gives the value that came last under that name |
| Csv.TableOfText | csv.c:35-75 | the text of a table reads as the table, trimmed in front of newlines, with one blank row for every newline at the end |
| Csv.RoundTrip | csv.c:25-93 | a table of plain fields is read back from its text, with any number of newlines behind it, if and only if no field in front of a newline ends in a blank, the text does not start blank, and the last row is not one empty field |
| Csv.GivenUp | csv.c:44-45 | no rows come from the empty text, from one whose first line is blank without a separator and ends in a newline, and from one that begins with a separator which is a blank; from all others some do |
| Csv.BlankIsLost | csv.c:38-43 | a first row whose only field ends in a blank is not read back |
| Csv.ScanField | csv.c:36-37 | stops at the first separator, newline or the end |
| Csv.ScanBlanks | csv.c:38-43 | cuts exactly the trailing blanks |
| Csv.CsvFile.AddCell | csv.c:46-72 | appends a cell to the row being filled through both growing arrays; no other row changes |
| Csv.CsvFile.StripLines | csv.c:77-83 | takes off exactly the rows of one empty cell at the end |
| Csv.Parse | csv.c:25-93 | the rows of the text for every text and separator, nothing for a text that starts blank |
| SpoolName.CharsInOrder | compile-control.c:109-110 | the 32 digits are 0 to 9 and A to V |
| SpoolName.PackedFields | compile-control.c:141-144 | run id, process id and time occupy 15, 15 and 25 bits without overlap, below 2^55 |
| SpoolName.B32Number | compile-control.c:109-125 | writes the twelve base-32 digits of a number and a NUL, nothing else |
| SpoolName.ServePacketName | compile-control.c:127-149 | the name: the clamped priority in place of a digit that is always zero, then the number |
| SpoolName.ValueOfDigits | compile-control.c:109-125 | the digits give the number back |
| SpoolName.NameFields | compile-control.c:127-149 | a name gives back the clamped priority, 15 bits of run id and process id, 25 bits of the time |
| SpoolName.NameOrder | compile-control.c:127-149 | names compare as bytes exactly as (priority, number) compares |

## Left out

- Processes, sockets, archives, HTML output, logging, memory release and allocation failure.
- Left abstract: `ipv6_match_mask` (xml_utils/parse_ip.c:314-326) is any relation on addresses, `contests_new_node` (contests.c:1264-1270) gives a zero-filled node, `get_current_time` (unix/curtime.c:24-32) gives microseconds below one second. `submit_block_remove` (t3m_submits.c:80-99) is called nowhere and left out.
- Bitset.UrlDecode: does not cover inputs for which C leaves the outcome undefined, texts that drive the bitset decoder past the largest int or are longer than an int can say (`UrlCodec.FitsInt`, met by every text of at most 191247273 characters and by every encoded set). Nor is a bitset of size above 2147483640 covered.
- Bitset.CheckText: does not cover the same texts.
- CompilePacket.CountSize: does not cover parts whose summed sizes exceed the largest int, where the sum of the C function overflows.
- CompilePacket.RequestWrite: does not cover requests whose summed lengths exceed the largest int, for the same reason; every request below that, accepted or refused, is covered.
- Null strings: a null text is decoded like the empty one; the null result of `csv_parse` is a flag.
- bitset.h: setting, clearing and toggling single bits, apart from the reading and setting that encoder, decoder and comparison use; they would only add easy members. `bitset_init`, `bitset_reset`, `bitset_clear` and `bitset_fill` have no body in the repository.
- PATH_MAX is taken as 4096, its value on Linux; the byte order is little-endian, and a compile packet is a sequence of bytes of that order.
- Environment arrays are sequences; the terminating null pointer is their end, and an explicit count above their length is excluded.
- The special packets of contest 0, the messages in the compile log and the waiting loop around writing the reply.
- `base64_encode_str` and `base64_decode_str`; the byte behind the input that the decoder looks at for "==" is an argument.
- The payload of rule nodes other than address, mask, ssl and allow, and the place of the access node among its own siblings.
- ClarLog.ClarLogState.Open: does not model read-only mode, the conversion from version 0 (which a broken length or header leads to) and transfers that stop inside a record. A file is empty, a header with whole records, or of a later version; a short write counts as no write.
- The log: padding bytes of records and the caches of recoded subjects.
- Batch: requests that cannot be sent, for which `ej-batch.c` aborts, the log files of packets, the layout of run replies (run_packet_4.c), and replies from a directory that is not registered. What C does to a freed packet is not defined and counts as a stop. Whether packets ever finish is not claimed, and a packet with nothing queued never does.
- Batch.Spool.FinalizePacket: writing the outgoing packet is an outcome that is given, its content is not modelled.
- Cgi: `multipart/form-data`, the request size check, capacities of the growing buffers. Reading is proved on all inputs, the round trip for encoded pairs; names without '=' take whatever the value buffer still holds, as in the code (`Cgi.BareNameKeepsValue`).
- Csv: separators that are no bytes. `isspace`, `isxdigit` and `tolower` are those of the C locale.
- SpoolName: the process id and the time of day are arguments, signed ones as 64-bit two's complement.
