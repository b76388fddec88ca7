# Verification of the ModBus master

A Dafny model of the parts of the master in which most can go wrong, and proofs about it. Verify it with
`dafny verify dfyconfig.toml`.

- **The mask-rule engine** (`CircularList`, `MaskRules`, `RuleSet`, `WrappedIds`, `IoRely`). A fixed pool of rule nodes is
  on two intrusive circular lists at once. `RuleSet` is the rule set as the code keeps it, links and all, with
  the sequences of nodes as ghosts; `MaskRules` says what a pass is meant to do, as a fold over the rules by
  (priority, id) that fires a matching rule unless it contradicts one fired before. The code keeps a flag in
  each node that it never clears up front; that this makes no difference rests on the order of the lists, on
  ids that grow, and on the filter's early returns. `IoRely` carries a pass through to the coils.
- **The frame codec** (`Coils`, `Crc`, `Pdu`, `Layouts`, `MbCommon`, `Rtu`, `Tcp`). `Pdu` says what a request and a reply
  are, what a short buffer keeps of a request, and what the decoder makes of any bytes, and `Layouts` spells both out code by code; `MbCommon` is the
  buffer with its put and get macros and the two coding functions as they change it. `Crc` proves what the
  checksum detects. `Rtu` and `Tcp` put frames around both.
- **The trie** (`Stack`, `TriePaths`, `TrieModel`, `Trie`). `TriePaths` is about trees as tables of paths, the
  orders in which they are walked, and states half way through a walk. `Trie` is the pointer structure with
  insertion, lookup, the walks and the teardown over the array stack of `Stack`.
- **The request/response discipline** (`Protocol`). Three threads, one lock, a 16-bit transaction counter and
  a channel that may delay, lose, double and reorder replies, as a step system over the frames of `Tcp`.

The host is little-endian. Words and bytes are bit-vectors where bits matter; 16-bit counters wrap.

## Where the code and its comments differ

The model follows the code.

- `is_big_endian` returns 1 on a little-endian host (`source/src/ModBus/mb_common.c:13-28`), so its callers
  read it as "swap needed".
- Functions 5, 6 and 0x10 send their values as they lie in memory, low byte first
  (`source/src/ModBus/mb_common.c:177-182`, `222-225`), where the protocol has the high byte first. The
  transaction code stays in host order too (`source/src/ModBus/mb_tcp.c:35-40`); the server only echoes it.
- `mask_rule_add` means to check the priority but tests a local that is still zero
  (`source/rule/mask_rule.c:113`, `127`). The caller checks it (`source/main.c:599`), which is what `Add` asks
  for; `PriorityFits` says what priority 8 would index. Priority 0 is stored as 7.
- `mask_rule_get` and `mask_rule_del` take the 16-bit id as eight bits (`source/rule/mask_rule.c:192`, `253`),
  so a rule with an id above 255 cannot be named. `Get` and `Del` cut their argument accordingly.
- `mask_rule_add` counts a rule under `priority - 1` and `mask_rule_del` under `priority`
  (`source/rule/mask_rule.c:174-186`, `225-248`). `RuleSet` keeps these counters as the code does, and nothing
  else depends on them; `CounterIsLength` says when one is right.

## Properties that hold with a condition

- A pass over rules with given priorities and ids is the greedy pass, whatever else the rules say, exactly if the
  ids grow along every priority list (`GreedyIffSorted`, `GreedyIfInOrder`). An add keeps them in order exactly if
  there are no live rules or the id counter does not wrap (`Add`, `NextIdOrder`). `WrappedIds.Misfire` is a rule
  set, from init, 65535 adds, one delete and one more add, on which two contradicting rules fire. Most of its rules
  stay in it: a rule with an id above 255 cannot be deleted.
- The counter of a priority list is its length, modulo 256, exactly if as many rules have been deleted of its own
  priority as of the next lower number, modulo 256 (`CounterIsLength`, over the adds and deletes the set has seen).
- An RTU register reply is accepted exactly if its byte count is even or its checksum is zero (`ReplyAccepted`).
  Its fields are read back in any case. Over TCP the last byte of an odd register reply is lost if nothing came in
  behind it (`DecodesReply`).
- An RTU frame damaged within 16 bits is accepted exactly if the address is right, the damaged fields end elsewhere
  than at the last two bytes, and the word there is the checksum (`BurstAccepted`). `FlippedCode` and `FlippedCount`
  are two frames accepted with one flipped bit. If the function code and, where there is one, the byte count
  arrive as sent, no such frame is accepted (`BurstRefused`).
- A TCP reply to an earlier request is accepted exactly if it is a multiple of 65536 requests late
  (`AcceptsIff`); `LateReplyMisleads` is a run in which that misleads.
- A second pass changes nothing if no rule reads a coil that a rule writes; `FeedbackUnsettles` shows a rule that
  does.

## Model

| member | source | states |
|---|---|---|
| `RuleSets.RuleSet.constructor` | source/rule/mask_rule.c:60-101 | a new rule set satisfies the whole dual-list invariant, holds no rule, its ids are in order and its counters right, and no flag is set |
| `RuleSets.RuleSet.ThreadIds` | source/rule/mask_rule.c:81-86 | the pool loop strings every node of the block onto the id list, each once |
| `RuleSets.RuleSet.Add` | source/rule/mask_rule.c:111-190 | from any valid rule set: which of the checks answers, and with which code; a failed add changes no rule; a successful one appends a rule with the masks and the kind given, the next id and the priority given (7 for 0) to the live rules and to the one list of that priority; the node used is never live nor the sentinel (the invariant is kept), and ids stay in order exactly if the 16-bit counter did not wrap over live rules; the counter of that list goes up and the log of edits gains the add |
| `RuleSets.RuleSet.AddedOk` | source/rule/mask_rule.c:150-187 | moving the boundary past the first free node after it is written and filed restores the dual-list invariant |
| `RuleSets.RuleSet.FirstFree` | source/rule/mask_rule.c:150-158 | the node behind the boundary is the first free one, and is not the sentinel while there is capacity |
| `RuleSets.RuleSet.TailApart` | source/rule/mask_rule.c:176-177 | filing a node touches three links that no other list has |
| `RuleSets.RuleSet.Get` | source/rule/mask_rule.c:253-285 | the walk that stops at the first invalid node finds the live rule with the id cut to eight bits, and null exactly if there is none |
| `RuleSets.RuleSet.Del` | source/rule/mask_rule.c:192-251 | exactly the rule with the id cut to eight bits leaves the live rules, its one priority list and the order of a pass; other lists keep their rules; ids stay in order; the table of rules loses exactly that id; the counter under its priority goes down and the log of edits gains the delete; if the rule would not have fired for a mask, the same rules fire without it |
| `RuleSets.RuleSet.DeletedOk` | source/rule/mask_rule.c:238-248 | retiring a node behind the live part and off its priority list restores the dual-list invariant |
| `RuleSets.RuleSet.DelApart` | source/rule/mask_rule.c:239-244 | unlinking a node touches its neighbours on its own priority list and id links only |
| `RuleSets.RuleSet.StepBack` | source/rule/mask_rule.c:212-228 | the boundary steps back, to the live rule before or the sentinel, exactly if the rule deleted is the last live one, and the early error return is never taken while a rule is live |
| `RuleSets.RuleSet.DropFacts` | source/rule/mask_rule.c:212-228 | while a rule is live the boundary is on the last live node, never the sentinel, and no other live node compares equal to it |
| `RuleSets.RuleSet.CounterIsLength` | source/rule/mask_rule.c:186-248 | over all adds and deletes of a rule set: the counter of list p is the length of the list, modulo 256, exactly if equally many rules of priorities p and p + 1 have been deleted, modulo 256 |
| `RuleSets.RuleSet.PriorityFits` | source/rule/mask_rule.c:127-248 | the lists that add and delete index are lists of the set exactly for priorities below 8; priority 8 fits in add and is one past the end in delete |
| `RuleSets.RuleSet.Filter` | source/rule/mask_rule.c:287-344 | the nested walk with its early returns computes the scan over all flags in (priority, id-list) order |
| `RuleSets.RuleSet.Match` | source/rule/mask_rule.c:346-412 | for any flags left over: the pass is the flag-driven scan; every rule called back meets the state of the inputs bit for bit; and in an ordered rule set it calls back exactly what the pure greedy pass calls back, with its status and argument, and no two rules called back contradict each other |
| `MaskRules.FuzzMatches` | source/rule/mask_rule.c:381-395 | a FUZZ rule matches exactly if every input it wants up is up and every input it wants down is down |
| `MaskRules.FlexMatches` | source/rule/mask_rule.c:376-395 | a FLEX rule matches exactly if each half of its input mask that asks for anything is the whole state |
| `MaskRules.MatchesMeets` | source/rule/mask_rule.c:376-395 | both in one, as Match promises it of the rules called back |
| `MaskRules.ContradictsIsOrder` | source/rule/mask_rule.c:335-339 | two acceptable rules contradict each other exactly if applying them in the two orders ends in different outputs, whatever the outputs were |
| `MaskRules.SettersAllFire` | source/rule/mask_rule.c:335-402 | of rules that only set outputs every one that matches fires, and if all match they fire in order |
| `MaskRules.ScanPassMatches` | source/rule/mask_rule.c:374-395 | in any order and with any flags a pass calls back only rules it was given, and only if they match |
| `MaskRules.PassCompatible` | source/rule/mask_rule.c:335-402 | the rules a pass calls back do not contradict each other, also if a call fails |
| `RuleSets.RuleSet.FlatSorted` | source/rule/mask_rule.c:304-306 | with ids in order, walking the priority lists one by one visits the live rules by (priority, id) |
| `RuleSets.RuleSet.GreedyIfInOrder` | source/rule/mask_rule.c:304-333 | from any valid rule set: whatever rules had its priorities and ids, a pass is the greedy one exactly if ids grow along every priority list |
| `RuleSets.RuleSet.RingsApart` | source/rule/mask_rule.c:81-98 | no link of the pool is on two lists |
| `RuleSets.FlatWithout` | source/rule/mask_rule.c:238-244 | a rule taken off one priority list leaves the order of a pass at one place, all else unmoved |
| `MaskRules.PassCallsGreedy` | source/rule/mask_rule.c:360-411 | a pass calls the callback on the greedy choice in order, up to and including the first call that fails, and returns the callback error exactly then |
| `MaskRules.GreedyStep` | source/rule/mask_rule.c:374-402 | rule k fires exactly if it matches and contradicts no rule fired before it, and those are the choice among the rules before k |
| `MaskRules.GreedyCompatible` | source/rule/mask_rule.c:335-339 | no two fired rules contradict each other |
| `MaskRules.GreedyMaximal` | source/rule/mask_rule.c:387-402 | every matching rule that did not fire contradicts one fired earlier in (priority, id) order |
| `MaskRules.GreedyWithoutUnfired` | source/rule/mask_rule.c:304-341 | without a rule that does not fire, the same rules fire |
| `MaskRules.ScanIgnoresLater` | source/rule/mask_rule.c:318-333 | stale flags of rules behind the one being filtered cannot decide the filter's walk |
| `MaskRules.ScanIsClash` | source/rule/mask_rule.c:287-344 | in a sorted set the walk reports a conflict exactly if the rule contradicts a flagged rule before it |
| `MaskRules.ScanPassIsPass` | source/rule/mask_rule.c:346-412 | in a sorted set the flag-driven pass is the greedy pass, whatever the flags were |
| `MaskRules.WrappedIdsMisfire` | source/rule/mask_rule.c:167 | two entries with ids 65535 and 0: the pass fires both of two contradicting rules where the greedy pass fires one |
| `MaskRules.GreedyIffSorted` | source/rule/mask_rule.c:318-333 | for rules listed by priority: the flag-driven pass is the greedy pass for all contents with these priorities and ids, all masks, flags and callbacks, exactly if the ids grow within each priority |
| `MaskRules.BothFire` | source/rule/mask_rule.c:318-333 | if of two matching rules of one priority the later has no larger id, both fire, though they contradict each other |
| `WrappedIds.Misfire` | source/rule/mask_rule.c:60-412 | a rule set built by init, 65535 adds, a delete and an add, on which one pass fires a rule with id 65535 and a contradicting one with id 0 |
| `MaskRules.NextIdOrder` | source/rule/mask_rule.c:167 | a new id keeps the ids in order exactly if there were no live rules or the counter did not wrap |
| `MaskRules.LookupIsTable` | source/rule/mask_rule.c:265-282 | searching by id agrees with the table from ids to rules |
| `MaskRules.TableWithout` | source/rule/mask_rule.c:238-248 | deleting the rule at a position removes exactly its entry from the table |
| `MaskRules.TableHolds` | source/rule/mask_rule.c:121-187 | the table has exactly the live rules as its entries, one for each id, so it is full exactly when an add fails for capacity |
| `MaskRules.CounterIs` | source/rule/mask_rule.c:186-248 | after any adds and deletes the counter of list i is the adds of priority i + 1 less the deletes of priority i, modulo 256 |
| `MaskRules.CounterRight` | source/rule/mask_rule.c:186-248 | that is the adds less the deletes of priority i + 1 exactly if equally many rules of priorities i and i + 1 have been deleted, modulo 256 |
| `CircularList.AddBetween` | source/rule/list.h:27-35 | a head put between two neighbours of a ring is at that place of its sequence, and next and prev stay inverse |
| `CircularList.ListAdd` | source/rule/list.h:45-48 | the new entry is first |
| `CircularList.ListAddTail` | source/rule/list.h:58-61 | the new entry is last |
| `CircularList.ListDel` | source/rule/list.h:70-90 | the ring loses exactly that entry, which keeps its own links |
| `CircularList.ListReplace` | source/rule/list.h:99-105 | the new head stands where the old one stood, also if that was alone or the list's own head |
| `CircularList.ListDelInit` | source/rule/list.h:118-122 | the entry leaves its ring and is an empty ring of its own |
| `CircularList.ListMove` | source/rule/list.h:129-133 | within one ring or between two: the entry leaves its place and is first |
| `CircularList.ListMoveTail` | source/rule/list.h:140-145 | the same with the entry last |
| `CircularList.TestsAgree` | source/rule/list.h:152-207 | the tests for empty, singular and last, which read two links, answer for the whole list |
| `CircularList.ListRotateLeft` | source/rule/list.h:190-198 | the first entry becomes the last; an empty list stays |
| `CircularList.RotateRoundTrip` | source/rule/list.h:190-198 | rotating as often as there are entries is the identity |
| `CircularList.ListCutPosition` | source/rule/list.h:209-247 | the entries up to the given one move to the other list, with the empty, singleton and cut-at-head cases the code tests for |
| `CircularList.ListSplice` | source/rule/list.h:249-273 | the entries of the other list come first |
| `CircularList.ListSpliceTail` | source/rule/list.h:280-285 | the entries of the other list come last |
| `CircularList.ListSpliceInit` | source/rule/list.h:294-301 | the same, and the other list ends empty |
| `CircularList.CutSpliceRoundTrip` | source/rule/list.h:235-301 | cutting at any entry into an initialised list and splicing back restores both lists |
| `Coils.PackedCoils` | source/src/ModBus/mb_common.c:197-206 | bit k of the packed bytes is on exactly if value k is not zero |
| `Coils.PackedRequest` | source/src/ModBus/mb_common.c:193-206 | for 1 to 2000 coils the payload has ceil(n / 8) bytes, carries every coil, and its padding is zero if nothing was left behind the last value |
| `Coils.Unpack` | source/main.c:847-854 | the unpacking loops store bit j of byte i at 8 * i + j, for any number of bytes, and nothing else |
| `Coils.PackUnpack` | source/src/ModBus/mb_common.c:197-206 | packing and then unpacking gives back every coil as 0 or 1 |
| `IoRely.Combine` | source/main.c:847-862 | the two loops give each of the 16 values: coil or up bit, and not down bit |
| `IoRely.WantedPacks` | source/main.c:847-862 | those values, packed, are the coils with the up bits set and then the down bits cleared |
| `IoRely.IoRelyHandle` | source/main.c:816-879 | one fired rule is a read, a change and a write of the coils; a lost message fails it, with the coils as the lost message leaves them |
| `IoRely.LossCases` | source/main.c:833-878 | what becomes of the coils for each fate of the two exchanges: only a lost read or a lost write request leaves them, and any loss fails the rule |
| `IoRely.ApplyAllIsUnion` | source/main.c:847-862 | rules that do not contradict each other, applied in turn, set the union of their ups and clear the union of their downs |
| `IoRely.PassCoils` | source/main.c:923-930 | over a link that loses nothing a pass takes the coils c to (c or U) and not D, for the unions U and D of the up and down masks of the fired rules |
| `IoRely.CoilsAfterPass` | source/main.c:847-862 | coil by coil: after such a pass a coil is on exactly if it was on or a fired rule sets it, and no fired rule clears it |
| `IoRely.FuzzMatchesCoils` | source/rule/mask_rule.c:381-395 | a FUZZ rule matches the sixteen coils exactly if those it wants up are on and those it wants down are off; one that wants an input above the sixteenth up never does |
| `IoRely.CallsPrefix` | source/main.c:833-878 | whatever the link loses, the coils are those of a prefix of the fired rules |
| `IoRely.FiredInAnyOrder` | source/main.c:847-862 | every permutation of the fired rules leaves the same coils |
| `IoRely.SecondPassSettles` | source/main.c:923-930 | if all rules are FUZZ and none reads a coil that one writes, a second pass fires the same rules and changes nothing |
| `IoRely.IndependentIs` | source/main.c:847-862 | what its condition asks, coil by coil: no coil a rule asks about is written by another |
| `IoRely.FeedbackUnsettles` | source/main.c:923-930 | a rule that reads a coil it writes need not settle: a concrete rule and coils |
| `IoRely.RelyPass` | source/main.c:909-931 | one turn of the routine: a lost reply runs nothing; otherwise the mask built from the reply is the coils, and the pass on an ordered rule set is the greedy pass against the device; over a link that loses nothing it takes the coils c to (c or U) and not D, for the masks U and D of the fired rules |
| `Crc.CrcCalc` | source/src/ModBus/mb_rtu.c:47-73 | the two loops compute the checksum of the first bytes of the buffer |
| `Crc.StepLinear` | source/src/ModBus/mb_rtu.c:61-68 | the one-bit step distributes over exclusive or |
| `Crc.StepsInjective` | source/src/ModBus/mb_rtu.c:61-68 | the steps lose nothing |
| `Crc.FeedWord` | source/src/ModBus/mb_rtu.c:56-69 | taking in up to 16 bits one at a time is taking them in at once and stepping |
| `Crc.FeedIsFeedBits` | source/src/ModBus/mb_rtu.c:54-70 | the bytewise register is the bitwise one over the bits in line order |
| `Crc.FeedBitsLinear` | source/src/ModBus/mb_rtu.c:54-70 | the register of a difference of messages is the difference of the registers |
| `Crc.FrameAccepted` | source/src/ModBus/mb_rtu.c:80-87 | a message with its checksum appended low byte first passes the check |
| `Crc.Residue` | source/src/ModBus/mb_rtu.c:99-115 | a frame passes the check exactly if the register after all its bytes is zero |
| `Crc.CheckValue` | source/src/ModBus/mb_rtu.c:47-73 | the known check value: the checksum of the digits 1 to 9 is 4B37 |
| `Crc.BurstDetected` | source/src/ModBus/mb_rtu.c:47-90 | two accepted frames of one length that differ at most within 16 consecutive bits are the same, for any length |
| `Crc.SeventeenMissed` | source/src/ModBus/mb_rtu.c:47-90 | the bound is sharp: two accepted frames that differ within 17 bits |
| `Crc.OddErrorDetected` | source/src/ModBus/mb_rtu.c:47-90 | two accepted frames of one length never differ in an odd number of bits |
| `Pdu.SwapNeeded` | source/src/ModBus/mb_common.c:17-28 | on a little-endian host the flag called big-endian is set |
| `Pdu.SwapStored` | source/src/ModBus/mb_common.c:35-66 | a swapped word lies in memory in the protocol's order, and swapping after loading takes it back |
| `Pdu.PutsAreEncoded` | source/src/ModBus/mb_common.c:135-233 | the puts of the encoder, one after the other, are the request |
| `Pdu.StoredWhole` | source/src/ModBus/mb_common.h:49-68 | puts into a buffer: never past its size, and the written length equals the asked one exactly if everything fitted, even though a byte may still be stored after a word was dropped |
| `Pdu.CoilRequest` | source/src/ModBus/mb_common.c:185-207 | a request of code 0x0F for 1 to 2000 coils is code, address, count, byte count ceil(n / 8) and a payload of that many bytes in which every coil has its bit |
| `Pdu.CoilsReadable` | source/src/ModBus/mb_common.c:193-206 | the byte count of a 0x0F request stays within the values exactly for no coils or n coils with (n - 1) mod 2048 below 2000 or from 2040 on; 2001 coils are one case where it does not |
| `Pdu.RegisterRequest` | source/src/ModBus/mb_common.c:209-226 | a request of code 0x10 carries as many value bytes as its byte count says, which are all the registers exactly below 128 registers |
| `Pdu.DecodeAdvances` | source/src/ModBus/mb_common.c:240-324 | for any bytes, offset and stale fields: reading stays inside the bytes, and the offset advances by what was asked for exactly if no field was missing |
| `Pdu.DecodesReply` | source/src/ModBus/mb_common.c:240-324 | any well-formed reply, anywhere in a frame: decoding stops just behind it, one byte further for an odd number of register bytes, or one byte short if such a reply is the last thing there; the fields are its own, but in that last case the last byte keeps its old value |
| `Pdu.OddWordsOverrun` | source/src/ModBus/mb_common.c:281-285 | a register reply with an odd byte count makes the loop take one byte too many; its own bytes are read back |
| `Pdu.OddWordsCut` | source/src/ModBus/mb_common.c:281-285 | if there is no further byte the loop leaves the last one, which keeps its old value |
| `Pdu.EchoIsReply` | source/src/ModBus/mb_common.c:288-317 | the echo of a 5 or 6 request is a well-formed reply with its fields, and so are the first five bytes of a 0x0F or 0x10 request |
| `Layouts.ByteOrder` | source/src/ModBus/mb_common.c:35-66 | a word goes on the wire high byte first and lies in memory low byte first |
| `Layouts.ReadRequest` | source/src/ModBus/mb_common.c:161-171 | requests of codes 1 to 4 are code, address and count |
| `Layouts.OneRequest` | source/src/ModBus/mb_common.c:173-183 | requests of codes 5 and 6 are code, address and the two value bytes |
| `Layouts.RegistersRequest` | source/src/ModBus/mb_common.c:209-226 | a request of code 0x10 for up to 127 registers is code, address, count, twice the count and the value bytes |
| `Layouts.OtherRequest` | source/src/ModBus/mb_common.c:228-230 | a request of any other code is code and address |
| `Layouts.RelyRequests` | source/main.c:821-872 | the two requests of io_rely_handle, byte for byte |
| `Layouts.BitsDecoded` | source/src/ModBus/mb_common.c:264-274 | a reply of code 1 or 2: the count and as many values, every other field stays |
| `Layouts.WordsDecoded` | source/src/ModBus/mb_common.c:276-286 | the same for codes 3 and 4 with an even count |
| `Layouts.OneDecoded` | source/src/ModBus/mb_common.c:288-301 | a reply of code 5 or 6: address, high byte first, and two values |
| `Layouts.NumberDecoded` | source/src/ModBus/mb_common.c:302-317 | a reply of code 0x0F or 0x10: address and count, high byte first |
| `Layouts.ErrorDecoded` | source/src/ModBus/mb_common.c:255-260 | any code above 0x80 is an exception: the next byte is its error, if it is there, and nothing else is read |
| `Layouts.ErrorKept` | source/src/ModBus/mb_common.c:255-260 | a code up to 0x80 never touches the error field |
| `Layouts.ExceptionDecoded` | source/src/ModBus/mb_common.c:255-260 | the exceptions to the eight functions give their code and error |
| `Layouts.OtherDecoded` | source/src/ModBus/mb_common.c:319-320 | of any other code nothing more is read |
| `Layouts.ReplyCodes` | source/src/ModBus/mb_common.c:255-317 | which codes each kind of reply may carry |
| `Layouts.FieldsTell` | source/src/ModBus/mb_common.c:255-317 | the fields a reply yields tell which reply it was, so none is left out |
| `MbCommon.MbData.Clear` | source/src/ModBus/mb_common.c:116-128 | the buffer is zero and the three counters are zero |
| `MbCommon.MbData.ByteSet` | source/src/ModBus/mb_common.h:49-57 | the byte is appended if there is room, and counted in any case |
| `MbCommon.MbData.WordSet` | source/src/ModBus/mb_common.h:60-68 | both bytes of the word, low byte first, or neither |
| `MbCommon.MbData.ByteGet` | source/src/ModBus/mb_common.h:71-79 | the next byte, or the target's old content if there is none |
| `MbCommon.MbData.WordGet` | source/src/ModBus/mb_common.h:82-90 | the next two bytes as a word, or the target's old content if there are fewer |
| `MbCommon.MbData.EncapPuts` | source/src/ModBus/mb_common.c:135-233 | the statements of the encoder put what the request is made of, in order, for every function code |
| `MbCommon.MbData.Encap` | source/src/ModBus/mb_common.c:135-233 | what is written is the request with the puts that do not fit left out; the written length tells whether that is the whole request, and then the bytes are exactly it; what was in the buffer before stays |
| `MbCommon.MbData.GetWords` | source/src/ModBus/mb_common.c:281-285 | the wordwise loop loads the value bytes that are there, in pairs, and terminates |
| `MbCommon.MbData.Decap` | source/src/ModBus/mb_common.c:240-324 | total on any bytes, offset and stale fields; fields, offset and count are those of the pure decoder |
| `Rtu.MbRtu.CrcEncap` | source/src/ModBus/mb_rtu.c:75-90 | the checksum of the bytes so far is appended low byte first, if there is room |
| `Rtu.MbRtu.CrcDecapCheck` | source/src/ModBus/mb_rtu.c:92-118 | the word at the read offset is compared with the checksum of all bytes but the last two |
| `Rtu.MbRtu.Send` | source/src/ModBus/mb_rtu.c:463-492 | what goes on the line is address, request and checksum if the buffer holds them, which the two lengths tell |
| `Rtu.MbRtu.Recv` | source/src/ModBus/mb_rtu.c:499-542 | accepted exactly if address and checksum match; the fields are overwritten once the address matches, even if the checksum then fails |
| `Rtu.ReplyAccepted` | source/src/ModBus/mb_rtu.c:92-118 | a reply of any kind with its checksum is accepted exactly if its address is the one asked (so never above 255) and its register bytes are even in number, or the checksum is zero; accepted or not it yields its fields, and decoding ends just behind it, or one byte further for an odd number of register bytes |
| `Rtu.RequestEchoed` | source/src/ModBus/mb_rtu.c:463-542 | the echo of a 5 or 6 request is accepted and yields the request's own fields |
| `Rtu.HeadEchoed` | source/src/ModBus/mb_rtu.c:463-542 | the echo of the address and count of a 0x0F or 0x10 request is accepted and yields them |
| `Rtu.ReadAtEnd` | source/src/ModBus/mb_rtu.c:99-115 | where decoding ends just before the last two bytes the receiver's check is the check of the whole frame |
| `Rtu.BurstRefused` | source/src/ModBus/mb_rtu.c:92-118 | the frame of any even reply, damaged within 16 bits, is refused if its function code and, for a reply with values, its byte count arrive as sent |
| `Rtu.BurstAccepted` | source/src/ModBus/mb_rtu.c:92-118 | any frame damaged within 16 bits is accepted exactly if its address is right, decoding ends elsewhere than at the last two bytes, and the word read there is the checksum of the rest |
| `Rtu.FlippedCode` | source/src/ModBus/mb_rtu.c:499-542 | one flipped bit in the function code that is not noticed: a reply of eight coils is accepted as an exception |
| `Rtu.FlippedCount` | source/src/ModBus/mb_rtu.c:499-542 | one flipped bit in the byte count that is not noticed: the checksum is taken for values, and zero is read for it |
| `Tcp.MbTcp.HeadEncap` | source/src/ModBus/mb_tcp.c:27-42 | the transaction counter goes up by exactly one, in sixteen bits, and the header is the first seven bytes |
| `Tcp.MbTcp.HeadReEncap` | source/src/ModBus/mb_tcp.c:49-62 | bytes four and five become the number of bytes behind them, high byte first, and nothing else changes |
| `Tcp.MbTcp.Send` | source/src/ModBus/mb_tcp.c:397-427 | what is sent is header and request if the buffer holds them, which the lengths tell; the length field counts the bytes behind it even if the request was cut |
| `Tcp.MbTcp.HeadDecapCheck` | source/src/ModBus/mb_tcp.c:70-107 | accepted exactly if transaction, protocol and unit are those sent last; the offset is then behind the header |
| `Tcp.MbTcp.Recv` | source/src/ModBus/mb_tcp.c:435-472 | a refused reply leaves the fields alone, an accepted one is decoded from behind the header |
| `Tcp.ReplyAccepted` | source/src/ModBus/mb_tcp.c:70-107 | a reply behind any header, whatever its length field says and whatever follows it, is accepted exactly if the header has the codes sent last; it yields its own fields exactly if its register bytes are even in number, or something follows, or the last byte was already there |
| `Tcp.HeadRead` | source/src/ModBus/mb_tcp.c:77-101 | any header in front of any bytes is read back whole |
| `Tcp.NothingReceived` | source/src/ModBus/mb_tcp.c:77-101 | an empty reply is refused unless transaction, protocol and unit are all zero |
| `Tcp.SamePdu` | source/src/ModBus/mb_tcp.c:27-62 | TCP and RTU frames carry the same protocol data unit, and the MBAP length is the count of bytes behind it |
| `Stacks.SpStack.Enstack` | source/cli/stack.c:43-73 | pushing appends to the sequence of elements or fails for size or capacity and changes nothing; the slot to be written is always the number of elements, so it never wraps |
| `Stacks.SpStack.Destack` | source/cli/stack.c:75-105 | popping takes the last element or fails and changes nothing; the branch below the buffer is never taken |
| `Stacks.SpStack.Top` | source/cli/stack.c:107-130 | the last element, which stays |
| `TriePaths.StrcmpIsName` | source/cli/trie.c:34-37 | trie_strcmp compares lengths and texts up to the first zero byte, so it is an equivalence |
| `TriePaths.AddedGrown` | source/cli/trie.c:9-32 | a new child keeps the tree a tree with one node more and siblings distinct |
| `TriePaths.RestCovers` | source/cli/trie.c:276-294 | the post-order of a subtree holds every path under its node exactly once |
| `TriePaths.OrdersComplete` | source/cli/trie.c:205-222 | the order of trie_path_list and that of the loops that empty a stack hold every node but the root exactly once |
| `TriePaths.RootCapacity` | source/cli/trie.c:198-213 | the stack of the walks has a slot for all that is left |
| `TrieModels.TrieNode.Grow` | source/cli/trie.c:9-32 | the new child is in the next slot, one deeper, with the element given and nothing below it |
| `TrieModels.WithNodeSound` | source/cli/trie.c:9-32 | the model stays sound under a new node: depth, element and slots of every node, siblings distinct, one node more |
| `TrieModels.SlotIs` | source/cli/trie.c:82-93 | the first slot that compares equal is the child of that name |
| `Trie.TrieRoot.Insert` | source/cli/trie.c:57-118 | inserting fails exactly if the pattern is in the table and then changes nothing at all; otherwise the table gains exactly that entry, the nodes are the old ones and those on the way, and the node count is kept |
| `TrieModels.RoomExactly` | source/cli/trie.c:9-32 | a path finds a slot exactly if it is in the tree already or the node where it leaves the tree has fewer than 16 children |
| `TrieModels.SeventeenthChild` | source/cli/trie.c:9-32 | a root with n children takes another exactly if n is below 16 |
| `Trie.TrieRoot.Found` | source/cli/trie.c:120-165 | a lookup succeeds exactly if the pattern is in the table, at the node with its callback |
| `Trie.TrieRoot.PathList` | source/cli/trie.c:245-311 | the loop with its scratch arrays reports the patterns in the specified order, each as the path the arrays spell, up to the first bad answer; it terminates and never overflows its stack |
| `Trie.TrieRoot.Step` | source/cli/trie.c:278-294 | one turn: the arrays spell the path to the node on top, the index counts the children taken, and either the next child is pushed or the node is left |
| `TrieModels.ListComplete` | source/cli/trie.c:245-311 | with a callback that never fails every inserted pattern but the empty one is reported exactly once, as the elements on the way to its node |
| `TriePaths.CutShortIs` | source/cli/trie.c:231-241 | the answers of the callback alone decide how far a walk reports: to the end, or to the first that is negative |
| `TrieModels.ShallowIs` | source/cli/trie.c:245-259 | what PathList asks: no node is deeper than 15 |
| `TrieModels.RoomLeft` | source/cli/trie.c:259-287 | what is on the stack is never more than what is left, which is fewer than all nodes |
| `Trie.TrieRoot.Expand` | source/cli/trie.c:215-223 | taking a node and pushing its children never overflows the stack, and the node was not taken before |
| `Trie.TrieRoot.EachEntry` | source/cli/trie.c:313-363 | every node but the root is reported in the specified order, up to the first bad answer |
| `Trie.TrieRoot.PathEntry` | source/cli/trie.c:190-243 | the same for the nodes that end a pattern |
| `TrieModels.WalkOnce` | source/cli/trie.c:338-346 | that order holds every node but the root exactly once |
| `Trie.TrieRoot.Uninit` | source/cli/trie.c:365-408 | every node is freed; none is freed twice or read after it was freed, which the conditions on its accessors demand |
| `Protocol.SameCode` | source/src/ModBus/mb_tcp.c:31 | two requests carry the same transaction code exactly if their distance is a multiple of 65536 |
| `Protocol.CodeCounts` | source/src/ModBus/mb_tcp.c:31 | the code starts at zero and each request adds one |
| `Protocol.AcceptsIff` | source/src/ModBus/mb_tcp.c:81-101 | the bytes of a reply to an earlier request are accepted exactly if that distance is a multiple of 65536, whatever came in behind them |
| `Protocol.LockedStep` | source/main.c:743-768 | every step keeps: the thread inside is the one with the lock, and what it waits for is the reply to the last request |
| `Protocol.HonestStep` | source/main.c:743-768 | every step keeps: what is on the way answers requests that were sent |
| `Protocol.MatchedStep` | source/main.c:743-768 | every step keeps: each accepted reply was taken by the thread of that request |
| `Protocol.RunSafe` | source/main.c:743-768 | all of this holds in every state of every run |
| `Protocol.ChannelCan` | source/main.c:743-768 | what these runs allow: after any run the answer to any request sent may come in again, and any reply on its way may be lost |
| `Protocol.ThreadCan` | source/main.c:743-810 | exactly when each step of a thread may happen: any of the three may send, and fail to; what came in may be any of the replies on the way, in any order; only the worker never leaves without an exchange |
| `Protocol.AcceptedAnswers` | source/main.c:743-768 | over all interleavings of the three threads with delay, loss, doubling and reordering, an accepted reply is the server's answer to the request of the thread that accepts it, if it is less than 65536 requests late |
| `Protocol.AcceptedLast` | source/main.c:786-810 | that request is the last one sent, and its thread has the lock, alone |
| `Protocol.AcceptedFields` | source/main.c:900-933 | over every run: when a thread accepts a reply less than 65536 requests late, the fields it goes on with are those of the server's answer to its own request, if that is well-formed, whatever came in behind and whatever the fields held; for an odd register reply that came in alone all but the last byte |
| `Protocol.LateReplyMisleads` | source/src/ModBus/mb_tcp.c:31 | the bound is sharp: a run in which a reply 65536 requests late is accepted |
| `Protocol.RtuCannotTell` | source/src/ModBus/mb_rtu.c:499-542 | RTU has no transaction code: a late reply of the slave is accepted for the request sent now exactly as in time, that is unless it has an odd number of register bytes and a checksum other than zero, and its fields are the ones loaded |

## Left out

- Sockets, the serial line, timing, reconnecting and termios: bytes come in as a sequence (`MbCommon.MbData.Receive`) and frames go out as one.
- Menus, option and command parsing, printing, error strings, `mask_rule_display`, `mb_cache_show`.
- `source/src/sp_mb.c`: choosing between the two transports, copying fields in and out, single-coil wrappers and the configuration file.
- Rule edits during a pass: `command_rule_handle` does not take the lock; add, delete and match are sequential here and a callback does not touch the rule set.
- Failing allocation, null arguments and big-endian hosts.
- RTU frames under two bytes, whose length the code would decrement below zero, and TCP buffers under the seven bytes of the header.
- `list_replace_init`, `list_splice_tail_init` and `list_empty_careful`, which are compositions of the modelled operations or the same test.
- Function codes above 255: the field is an enumeration as wide as an int, but only bytes are ever stored in it.
- A stack element of fewer bytes than a slot, which the code copies in part: elements are whole values here.
- The `cmp` argument of `trie_init`: the only comparison in the repository is `trie_strcmp`, so it is built in. `trie_child_entry` is a plain loop.
- RuleSets.RuleSet.Match: the callback is a function of the rule and the argument it is given; it may fail on any call.
- RuleSets.RuleSet.Add: asks for a priority below 8, which the caller checks; the code's own check never fails (`PriorityFits`).
- Pdu.CoilRequest: up to 2000 coils; for 2001 to 2040 coils (or the same again after the byte count wraps) the encoder would read behind its values, so `Encap` asks for the others (`CoilsReadable`).
- Trie.TrieRoot.Insert: asks for a free slot where the path leaves the tree, as the code does not test for the 17th child (`RoomExactly`).
- Trie.TrieRoot.PathList: paths of up to 15 elements, for which the scratch arrays have room; they are local to the loop and kept as sequences.
- IoRely.IoRelyHandle: the server answers a read of 16 coils with two bytes.
- The demonstrations in `source/cli/trie.c` and `source/rule/main.c`, Makefiles and install scripts.
