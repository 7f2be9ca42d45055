# comdb2 request scheduling core, in Dafny

This project models part of the comdb2 database server:

- the **request ruleset engine** (`db/comdb2_ruleset.c`, `bbinc/comdb2_ruleset.h`):
  - rules match a client request by origin host, task, user, SQL text and fingerprint;
  - they reject or unreject the request, or move its priority, and can stop evaluation;
  - the tokens that name actions, flags, match modes and priorities are parsed and rendered;
- the **indexed binary min-heap** `pqueue` (`util/pqueue.c`, `util/pqueue.h`). Each queued item embeds a `{ix, priority}` record that the queue keeps equal to the item's slot;
- the **scheduler's sorted list** `priority_queue` (`util/priority_queue.c`);
- the **fingerprint statistics table** (`db/db_fingerprint.c`);
- the **queue-database registry** `thedb->qdbs` (`schemachange/sc_queues.c`);
- the **page-rounded read-only copies** of `util/memdup.c`.

Each source file has its own module:

- `ruleset_defs.dfy` (module `RulesetDefs`): The enumerations as 32-bit words. Rule records are datatypes; `ruleset_result` is a class.
- `ruleset_eval.dfy` (module `RulesetEval`): Pure functions for clamping, mode resolution and rule outcomes. The in-place evaluation methods are proved against them.
- `ruleset_text.dfy` (module `RulesetText`): The token parsers are loop methods, proved against pure functions. The renderers are functions.
- `priorities.dfy` (module `Priorities`): The priority constants of `priority_queue.h`, a header this model does not include.
- `pqueue.dfy` (module `Pqueue`): A class over an array, with the heap lemmas on sequences.
- `priority_queue.dfy` (module `PriorityQueueList`): A class whose list is a `seq` field; the operations accept a null queue.
- `fingerprint.dfy` (module `Fingerprint`): A class holding an optional map.
- `sc_queues.dfy` (module `ScQueues`): A class over an array and a set.
- `memdup.dfy` (module `Memdup`): The size arithmetic with 64-bit wrap-around, and methods that fill and clear the buffer.
- `wrappers.dfy` (module `Wrappers`): `Option`.

**External code is a parameter.**
- `strcmp`, `strcasecmp`, SQLite's `patternCompare`, the regular-expression engine and `memcmp` are uninterpreted functions. A comparison returns 0 for "matched".
- MD5 is an uninterpreted `string -> Digest` function.
- `realloc`, `calloc`, `mmap` and `mprotect` are represented by boolean parameters saying whether they succeed.

**Priorities.** `PRIORITY_T_*` live in `priority_queue.h`, which is not part of this model. They are the fields of a `PriorityConstants` value. `Valid()` requires `HIGHEST <= LOWEST` and the six sentinels to be pairwise distinct. The switch in `comdb2_priority_to_str` needs distinct sentinels to compile.

**Where the model departs from the code.**
- `comdb2_ruleset_match_mode_to_str` tests an identifier `flags` that is not in scope at `db/comdb2_ruleset.c:231-250`. `RulesetText.MatchModeToStr` renders `mode`, which is evidently what was meant.
- The header declares `comdb2_evaluate_ruleset` with four parameters (`bbinc/comdb2_ruleset.h:201-206`). The definition has five, including `memoryComparer`. The model follows the definition.

**Behaviour reproduced on purpose.**
- UNREJECT clears only the REJECT bit, although the header comment says it also undoes REJECT_ALL.
- REJECT_ALL is neither parsed nor applied.
- Rules with `ruleNo == 0` are evaluated like any other rule.
- Among equal priorities, a newly added `priority_queue` item goes before the older ones.
- `memdup_sizeof` wraps to 0 for sizes within one page of `SIZE_MAX`.

## Model

| member | source | states |
|---|---|---|
| RulesetDefs.ActionEncoding | bbinc/comdb2_ruleset.h:26-51 | NONE=0, REJECT=1, REJECT_ALL=2, UNREJECT=4, LOW_PRIO=8, HIGH_PRIO=16; the five non-NONE actions are pairwise-disjoint bits and the reject mask is REJECT\|REJECT_ALL = 3 |
| RulesetDefs.FlagsEncoding | bbinc/comdb2_ruleset.h:53-64 | NONE=0, PRINT=1, STOP=2, and PRINT and STOP are disjoint bits |
| RulesetDefs.ModeEncoding | bbinc/comdb2_ruleset.h:66-90 | NONE=0, EXACT=1, GLOB=2, REGEXP=4 are disjoint, NOCASE=8 is a bit apart from all three, and DEFAULT is EXACT |
| RulesetDefs.StringMatchEncoding | bbinc/comdb2_ruleset.h:92-102 | only TRUE (0) counts as matched; FALSE and ERROR are distinct non-zero values |
| RulesetDefs.MatchEncoding | bbinc/comdb2_ruleset.h:104-117 | the five outcomes have distinct codes and exactly TRUE and STOP are matches |
| RulesetDefs.RulesetResult.constructor | bbinc/comdb2_ruleset.h:174-184 | a result starts with the given action and priority and rule number 0 |
| RulesetEval.ClampPriority | db/comdb2_ruleset.c:289-299 | the result is in [HIGHEST, LOWEST], equals the input inside that range, and is the nearest bound outside it |
| RulesetEval.ClampIdempotent | db/comdb2_ruleset.c:289-299 | clamping a clamped priority changes nothing |
| RulesetEval.ClampMonotone | db/comdb2_ruleset.c:289-299 | clamping preserves the order of priorities |
| RulesetEval.AdjustPriority | db/comdb2_ruleset.c:301-311 | the result is in range; it is priority - adjustment for HIGH_PRIO and priority + adjustment for every other action when that is in range, and the bound it crossed otherwise, with the sum taken without `priority_t` overflow |
| RulesetEval.AdjustDirection | db/comdb2_ruleset.c:301-311 | with a non-negative adjustment from an in-range priority, HIGH_PRIO never lowers urgency and any other action never raises it |
| RulesetEval.AdjustResultPriority | db/comdb2_ruleset.c:313-321 | the result's priority becomes the adjusted priority, and its action and rule number are unchanged |
| RulesetEval.ResolveMode | db/comdb2_ruleset.c:94-105 | a comparator exists exactly when the mode without NOCASE is one of EXACT, GLOB or REGEXP; its kind is that bit and it ignores case exactly when NOCASE is set |
| RulesetEval.ResolveIgnoresNoCase | db/comdb2_ruleset.c:97-98 | adding or removing NOCASE does not change whether a comparator exists or its kind, only its case flag |
| RulesetEval.ResolveRejectsNoneAndCombinations | db/comdb2_ruleset.c:99-104 | NONE, NOCASE alone, INVALID and any combination of two base kinds yield no comparator |
| RulesetEval.DoRegexpMatch | db/comdb2_ruleset.c:48-78 | the result is TRUE, FALSE or ERROR; it is a match exactly when the pattern compiles and the engine matches; it is ERROR exactly when compilation fails or yields no program |
| RulesetEval.XStrCmpForMode | db/comdb2_ruleset.c:94-105 | a built-in comparison function is returned exactly when the mode resolves |
| RulesetEval.XStrCmpForModeBehaviour | db/comdb2_ruleset.c:34-105 | EXACT calls strcmp or strcasecmp on (subject, pattern); GLOB calls patternCompare with the pattern first; REGEXP matches only a compiled pattern that the engine matches |
| RulesetEval.ItemMatch | db/comdb2_ruleset.c:323-407 | a rule's outcome is never ERROR |
| RulesetEval.RejectSetsBit | db/comdb2_ruleset.c:379-382 | REJECT sets the REJECT bit of the result's action and leaves every other bit |
| RulesetEval.UnrejectClearsBit | db/comdb2_ruleset.c:383-386 | UNREJECT clears the REJECT bit and leaves every other bit, REJECT_ALL included |
| RulesetEval.OtherActionsKeepWord | db/comdb2_ruleset.c:374-397 | NONE, LOW_PRIO, HIGH_PRIO, REJECT_ALL and unknown actions leave the action word unchanged |
| RulesetEval.PriorityAfter | db/comdb2_ruleset.c:387-391 | LOW_PRIO and HIGH_PRIO leave an in-range priority; every other action leaves the priority unchanged |
| RulesetEval.ApplyRuleAction | db/comdb2_ruleset.c:374-397 | the result after the action switch is the one ApplyAction gives |
| RulesetEval.CheckStringCriteria | db/comdb2_ruleset.c:330-363 | the early outcome of the string checks: FALSE on the first failing criterion, NONE with criteria but no comparator, and otherwise none |
| RulesetEval.CheckFingerprint | db/comdb2_ruleset.c:364-373 | the early outcome of the fingerprint check: FALSE on a mismatch, NONE without a memory comparator, and otherwise none |
| RulesetEval.EvaluateRulesetItem | db/comdb2_ruleset.c:323-407 | returns the rule's outcome; the result changes, by the rule's action, exactly when the outcome is a match |
| RulesetEval.StringStageMeaning | db/comdb2_ruleset.c:333-363 | evaluation continues past the strings exactly when every string criterion is eligible and matched; it stops with NONE exactly when criteria exist but there is no comparator |
| RulesetEval.ItemMatchesIffCriteriaMet | db/comdb2_ruleset.c:323-407 | a rule matches exactly when its string criteria are decided and met and its fingerprint is absent or decided and equal; it returns STOP exactly when it also has the STOP flag |
| RulesetEval.FailingCriterionIsFalse | db/comdb2_ruleset.c:333-349 | a failing host, task, user or SQL criterion, or a user criterion without an authenticated user, gives FALSE and leaves the result unchanged, whatever the fingerprint |
| RulesetEval.UnevaluableRuleIsNone | db/comdb2_ruleset.c:350-373 | without a string comparator any string criterion gives NONE; once the strings pass, a fingerprint without a memory comparator gives NONE; the result is unchanged in both cases |
| RulesetEval.CatchAllRuleMatches | db/comdb2_ruleset.c:398-406 | a rule without criteria matches for every request and every choice of comparators: STOP exactly when it has the STOP flag, else TRUE |
| RulesetEval.ExactHostRule | db/comdb2_ruleset.c:333-336 | under EXACT mode with byte-exact strcmp, a host-only rule matches exactly the requests from that host |
| RulesetEval.FingerprintRule | db/comdb2_ruleset.c:364-368 | with memcmp, a fingerprint-only rule matches exactly the requests whose 16-byte fingerprint is equal |
| RulesetEval.Outcomes | db/comdb2_ruleset.c:417-421 | the outcome of each rule, position by position |
| RulesetEval.EvalRulesetStep | db/comdb2_ruleset.c:417-424 | one loop iteration: a STOP completes the count; TRUE adds one; any other outcome adds nothing; the rest of the rules yield the remainder |
| RulesetEval.EvaluateRuleset | db/comdb2_ruleset.c:409-426 | the count and final result are those of evaluating the first nRule rules in order up to and including the first STOP |
| RulesetEval.MatchCount | db/comdb2_ruleset.c:422-423 | the number of matching outcomes is at most the number of outcomes |
| RulesetEval.StopPrefix | db/comdb2_ruleset.c:422 | the evaluated prefix ends at the first STOP, or covers everything |
| RulesetEval.CountIsMatchesUpToStop | db/comdb2_ruleset.c:409-426 | the count is the number of TRUE or STOP outcomes up to and including the first STOP, and never exceeds nRule |
| RulesetEval.StopEndsEvaluation | db/comdb2_ruleset.c:422 | rules after a STOP, whatever their outcomes, change neither count nor result |
| RulesetEval.RulesAfterStopIgnored | db/comdb2_ruleset.c:417-424 | appending rules after a STOP rule leaves the evaluation of the ruleset unchanged |
| RulesetEval.FinalPriorityInRange | db/comdb2_ruleset.c:387-391 | starting from an in-range priority, the final priority is in range, and the result's rule number is never changed |
| RulesetEval.StopAfterFirstRule | db/comdb2_ruleset.c:417-424 | [catch-all with STOP, anything]: the count is 1 and only the first rule acts |
| RulesetEval.RejectAllThenUnreject | db/comdb2_ruleset.c:379-396 | [REJECT_ALL catch-all, UNREJECT+STOP catch-all]: both count, REJECT_ALL sets nothing, and UNREJECT clears only the REJECT bit |
| RulesetText.SkipSpace | db/comdb2_ruleset.c:113 | the result is a suffix of the text that does not start with white space |
| RulesetText.TokenLength | db/comdb2_ruleset.c:23 | the token is the longest run of non-delimiters at the start |
| RulesetText.TokensOfSpaceJoined | db/comdb2_ruleset.c:163 | strtok over RULESET_DELIM gives back the words of a space-joined list |
| RulesetText.StrToAction | db/comdb2_ruleset.c:107-125 | the action stored is INVALID for a null buffer, otherwise the action named after leading white space, ignoring case, or INVALID |
| RulesetText.ActionToStr | db/comdb2_ruleset.c:127-153 | named actions render as their names; others render as nothing when strict, else as "0x" and lower-case hex |
| RulesetText.NamedActions | db/comdb2_ruleset.c:127-153 | exactly NONE, REJECT, UNREJECT, LOW_PRIO and HIGH_PRIO have names; REJECT_ALL and INVALID do not |
| RulesetText.ActionNamesParse | db/comdb2_ruleset.c:114-123 | each of the five names parses as its action |
| RulesetText.ActionRoundTrip | db/comdb2_ruleset.c:107-153 | parsing a rendered named action gives it back, strict or not |
| RulesetText.UnnamedActionDoesNotParse | db/comdb2_ruleset.c:107-153 | a rendered action without a name, REJECT_ALL among them, parses as INVALID |
| RulesetText.LeadingSpaceIgnored | db/comdb2_ruleset.c:113 | leading white space does not change the parsed action |
| RulesetText.CaseIgnored | db/comdb2_ruleset.c:114-123 | texts equal up to ASCII case parse as the same action |
| RulesetText.RejectAllIsNotParsed | db/comdb2_ruleset.c:107-125 | "REJECT_ALL" parses as INVALID |
| RulesetText.Hex | db/comdb2_ruleset.c:149 | %x output is non-empty with no leading zero |
| RulesetText.HexRoundTrip | db/comdb2_ruleset.c:149 | reading the hex digits back gives the number |
| RulesetText.StrToFlags | db/comdb2_ruleset.c:155-176 | the flags are INVALID for a null buffer, for an unknown token or for no token; otherwise the OR of the tokens' bits |
| RulesetText.StrToMatchMode | db/comdb2_ruleset.c:194-224 | the mode is INVALID for a null buffer, for an unknown token or for no token; otherwise the OR of the tokens' bits |
| RulesetText.FlagsNoneRoundTrip | db/comdb2_ruleset.c:155-192 | rendered NONE flags parse back as NONE |
| RulesetText.FlagsStopRoundTrip | db/comdb2_ruleset.c:155-192 | rendered STOP flags, leading space included, parse back as STOP |
| RulesetText.PrintFlagIsLost | db/comdb2_ruleset.c:178-192 | PRINT alone writes nothing, and the empty text parses as INVALID |
| RulesetText.FlagsToStr | db/comdb2_ruleset.c:178-192 | writes "NONE" exactly for NONE; otherwise " STOP" exactly when STOP is set, and nothing else, so PRINT alone writes nothing |
| RulesetText.MatchModeToStr | db/comdb2_ruleset.c:226-251 | writes "NONE" exactly for NONE; otherwise exactly the set mode names, each preceded by one space, in the order EXACT, GLOB, REGEXP, NOCASE, a text strtok splits back into those names; nothing when no name applies |
| RulesetText.UnknownTokenIsInvalid | db/comdb2_ruleset.c:163-175 | one unknown token makes the whole text INVALID |
| RulesetText.NoTokenIsInvalid | db/comdb2_ruleset.c:163-175 | a text with no token parses as INVALID |
| RulesetText.ModeNamesKnown | db/comdb2_ruleset.c:202-217 | each of the five mode names parses as its bit |
| RulesetText.NamesParse | db/comdb2_ruleset.c:194-251 | the names rendered for a choice of mode bits are known tokens that OR back to those bits |
| RulesetText.MatchModeRoundTrip | db/comdb2_ruleset.c:194-251 | parsing the rendering of any combination of the four mode bits gives that combination back |
| RulesetText.NoneModeRoundTrip | db/comdb2_ruleset.c:194-251 | the NONE mode renders and parses back as NONE |
| RulesetText.ModeBitsRecombine | bbinc/comdb2_ruleset.h:66-90 | a word of the four mode bits is the OR of the bits it has |
| RulesetText.PriorityToStr | db/comdb2_ruleset.c:253-287 | a sentinel renders as its name; any other priority as nothing when strict, else as "0x" and its unsigned 64-bit hex |
| RulesetText.PriorityEnds | db/comdb2_ruleset.c:268-271 | HIGHEST and LOWEST render by name whatever the strictness |
| RulesetText.PriorityHexReadsBack | db/comdb2_ruleset.c:282 | an unnamed priority's hex digits read back as its value modulo 2^64 |
| Pqueue.SlotArithmetic | util/pqueue.c:35-39 | the left and right children of n have parent n, and every slot but the root has a parent below it that it is a child of |
| Pqueue.UpStep | util/pqueue.c:61-77 | a fixup swap of an entry smaller than its parent moves the only out-of-order edge up to the parent |
| Pqueue.UpStepEdges | util/pqueue.c:61-77 | after a fixup swap, every edge except the one into the parent's slot is in order |
| Pqueue.UpStepGrandparent | util/pqueue.c:61-77 | after a fixup swap, the grandparent still bounds the children of the parent's slot |
| Pqueue.UpDone | util/pqueue.c:61-77 | when fixup stops, the whole array is a heap |
| Pqueue.DownStep | util/pqueue.c:79-114 | swapping an entry with its smallest, smaller child moves the defect down to that child |
| Pqueue.DownChoice | util/pqueue.c:79-114 | the child fixdown picks (the only child, else the right one when strictly smaller) is a smallest child: the swap moves the defect down, and without a swap nothing is out of order |
| Pqueue.DownLeaf | util/pqueue.c:79-114 | a defect at a leaf, or past the end, is none: the array is a heap |
| Pqueue.DownDone | util/pqueue.c:79-114 | an entry no larger than its children leaves a heap |
| Pqueue.RootIsMin | util/pqueue.c:116-140 | in a heap-ordered array the root has the least priority |
| Pqueue.PrioritiesOf | util/pqueue.c:35-39 | the priority at each slot is the one in that slot's item record |
| Pqueue.SwapIndexed | util/pqueue.c:41-59 | after swap both records name their new slots and every priority is unchanged |
| Pqueue.SwapPriorities | util/pqueue.c:41-59 | swap exchanges the two slots' priorities and keeps the others |
| Pqueue.SwapContents | util/pqueue.c:41-59 | swap keeps the set of items and their priorities, and the records of items outside the queue |
| Pqueue.LastMovedTo | util/pqueue.c:184-187 | the last entry moves into slot ix, the array shrinks by one, and the other slots are unchanged |
| Pqueue.FirstIsMinimum | util/pqueue.h:27-32 | the item in the first slot has the least priority of all queued items |
| Pqueue.AppendItem | util/pqueue.c:153-157 | appending an unqueued item with a record naming the new last slot adds exactly that item with its priority |
| Pqueue.AppendExceptUp | util/pqueue.c:153-160 | a heap with a priority appended is out of order at most on the edge into the new slot |
| Pqueue.MoveLastIndexed | util/pqueue.c:215-218 | after the last item moves into slot ix the records still name their slots, priorities are kept, and the removed item's record is untouched |
| Pqueue.MoveLastMembers | util/pqueue.c:215-218 | moving the last item into slot ix removes exactly the item that was at ix |
| Pqueue.MoveLastContents | util/pqueue.c:215-218 | the contents lose exactly the item at ix, and other records are kept |
| Pqueue.MoveLastPriorities | util/pqueue.c:215-218 | the priorities move the same way as the items |
| Pqueue.RemoveFirst | util/pqueue.c:174-193 | with two or more items, moving the last item to the root drops the first item and leaves only the root's outgoing edges to fix |
| Pqueue.MoveLastUp | util/pqueue.c:219-222 | when the moved priority is below its new parent's, the slot was not the last one and only the edge into it is out of order |
| Pqueue.MoveLastDown | util/pqueue.c:219-226 | at the root, or when the moved priority is not below its parent's, only the edges out of the slot are out of order |
| Pqueue.SlotOf | util/pqueue.h:14-21 | a queued item's record names the slot that holds it |
| Pqueue.DeleteSlot | util/pqueue.c:206-227 | delete drops exactly the item and keeps the other records; the fixup branch is taken only for a slot that is not the last, with only the edge into it out of order, otherwise only its outgoing edges are |
| Pqueue.DrainStep | util/pqueue.c:270-285 | removing a least item keeps the output in non-decreasing priority order, distinct and exactly the removed items |
| Pqueue.Queue.Ent | util/pqueue.c:35-39 | the ent macro's record of slot n names slot n and holds that slot's priority |
| Pqueue.Queue.FixUp | util/pqueue.c:61-77 | fixup restores heap order from a defect on the edge into id, keeping the contents and the records of items outside the queue |
| Pqueue.Queue.SmallerChild | util/pqueue.c:88-103 | the child chosen is the only child, else the right one when strictly smaller, else the left |
| Pqueue.Queue.FixDown | util/pqueue.c:79-114 | fixdown restores heap order from a defect on the edges out of id, or from one past the end, keeping the contents |
| Pqueue.Queue.constructor | util/pqueue.c:22-33 | a new queue is empty with no slots allocated |
| Pqueue.Queue.Swap | util/pqueue.c:41-59 | the two slots and their priorities are exchanged, the records rewritten, and the contents kept |
| Pqueue.Queue.Add | util/pqueue.c:142-162 | the call returns 0 or -1, and -1 exactly when the array is full and cannot grow, in which case nothing changes; on 0 count grows by one and the item is queued with its priority; a full array grows to capacity*2+16 |
| Pqueue.Queue.Reserve | util/pqueue.c:146-152 | the growth step: room exactly when not full or growth succeeds, with the items kept |
| Pqueue.Queue.Place | util/pqueue.c:153-157 | the item goes into the first free slot with a record naming it |
| Pqueue.Queue.Peek | util/pqueue.c:195-204 | None exactly when empty, else an item of least priority; nothing changes |
| Pqueue.Queue.RemoveNext | util/pqueue.c:174-193 | None and no change when empty; otherwise an item of least priority, removed, with count one less and the others kept |
| Pqueue.Queue.Drain | util/pqueue.c:270-285 | the queue ends empty and the items come out each exactly once in non-decreasing priority order |
| Pqueue.Queue.Delete | util/pqueue.c:206-227 | exactly the given item is removed, count drops by one, and the heap invariant holds |
| Pqueue.Queue.MoveLastInto | util/pqueue.c:215-218 | the last item moves into slot ix with its record's ix rewritten |
| Pqueue.Queue.AdjustPriority | util/pqueue.c:235-240 | the same items remain, with the adjusted item now at the new priority |
| PriorityQueueList.PriorityQueue.constructor | util/priority_queue.c:29-33 | an initialised queue is empty |
| PriorityQueueList.New | util/priority_queue.c:22-27 | a fresh empty queue, or null exactly when allocation fails |
| PriorityQueueList.InsertBefore | util/priority_queue.c:93-108 | the ordinary insertion adds one item |
| PriorityQueueList.StoredPriority | util/priority_queue.c:76-91 | HEAD is stored as HIGHEST, TAIL and DEFAULT as LOWEST, and any other priority as itself |
| PriorityQueueList.InsertIndex | util/priority_queue.c:95-103 | the scan stops at the first item whose priority is at least p, or at the end |
| PriorityQueueList.InsertBeforeAt | util/priority_queue.c:95-108 | the insertion puts the item at the position where the scan stops and keeps the rest in order |
| PriorityQueueList.InsertBeforeMultiset | util/priority_queue.c:93-108 | the insertion adds exactly the new item and keeps every other one |
| PriorityQueueList.InsertBeforeSorted | util/priority_queue.c:93-108 | the insertion keeps a sorted list sorted |
| PriorityQueueList.InsertBeforeInRange | util/priority_queue.c:93-108 | inserting an in-range item keeps every priority in [HIGHEST, LOWEST] |
| PriorityQueueList.NewItemBeforeEqual | util/priority_queue.c:97-101 | in a sorted list the new item follows every smaller priority and precedes every equal or larger one |
| PriorityQueueList.AddKeepsOrdered | util/priority_queue.c:60-109 | a list sorted within [HIGHEST, LOWEST] stays so after any add whose stored priority is in range |
| PriorityQueueList.AddedContents | util/priority_queue.c:60-109 | a successful add stores exactly one new item with its data and stored priority |
| PriorityQueueList.Add | util/priority_queue.c:60-109 | returns EINVAL exactly for a null queue or object and ENOMEM exactly when allocation fails, both without change; otherwise 0 with HEAD at the front, TAIL at the back and other priorities inserted in order |
| PriorityQueueList.Next | util/priority_queue.c:111-118 | pops the front item and returns its data; None for a null or empty queue |
| PriorityQueueList.Highest | util/priority_queue.c:120-126 | the front item's priority, the least of a sorted list; INVALID for a null or empty queue |
| PriorityQueueList.Count | util/priority_queue.c:128-133 | the number of items, or -1 for a null queue |
| PriorityQueueList.Clear | util/priority_queue.c:35-45 | the list ends empty |
| PriorityQueueList.Free | util/priority_queue.c:47-58 | the queue is cleared and the holder set to null; nothing happens for a null holder |
| PriorityQueueList.ForEach | util/priority_queue.c:135-147 | the callback receives every item's data once, front to back; it is not called for a null queue |
| Fingerprint.CalcFingerprint | db/db_fingerprint.c:73-86 | the length output is the text's length and the digest is the 16-byte MD5 of the text |
| Fingerprint.RecordedKeys | db/db_fingerprint.c:98-122 | after recording, a digest is tracked exactly when it was tracked before, or it is the new digest and the table had room |
| Fingerprint.RecordedSize | db/db_fingerprint.c:100-112 | the table never grows beyond the larger of its old size and gbl_fingerprint_max_queries |
| Fingerprint.RecordedEntry | db/db_fingerprint.c:99-122 | a new digest gets count 1, this run's statistics and the text and its length; an existing one gains 1 and this run's cost, time, prepTime and rows, keeping its fingerprint and text; at the cap the table is unchanged |
| Fingerprint.RecordedOthers | db/db_fingerprint.c:98-237 | every other fingerprint's record is unchanged |
| Fingerprint.RecordedWellFormed | db/db_fingerprint.c:113-122 | entries stay filed under their own fingerprint, with their text's length and a positive count |
| Fingerprint.RecordedRepeatedly | db/db_fingerprint.c:113-122 | recording the same text n times into a table with room gives count n and the summed cost |
| Fingerprint.FingerprintTable.constructor | db/db_fingerprint.c:30-35 | no table exists yet and the cap is 1000 |
| Fingerprint.FingerprintTable.AddFingerprint | db/db_fingerprint.c:88-122 | the table is created if missing and then becomes the recorded table; the digest is handed back whenever fingerprint_out is asked for, on every path |
| Fingerprint.FingerprintTable.ClearFingerprints | db/db_fingerprint.c:57-71 | returns the number of records held, or 0 when there is no table, and leaves no table |
| ScQueues.RemoveFirstAt | schemachange/sc_queues.c:100-111 | when slot i holds db and no earlier slot does, removal cuts out exactly slot i and keeps the order of the slots before and after |
| ScQueues.RemoveAbsent | schemachange/sc_queues.c:98-114 | removing a queue that is not registered leaves the array unchanged |
| ScQueues.RemoveFirstMultiset | schemachange/sc_queues.c:107-111 | at most one slot is removed even when db occurs more than once, and exactly one when it occurs |
| ScQueues.ReopenMovesLast | schemachange/sc_queues.c:600-619 | remove then add, for db first found at slot i, keeps the length and the multiset of queues, puts db in the last slot and keeps the others in their relative order |
| ScQueues.AppendMirrored | schemachange/sc_queues.c:88-96 | adding an unregistered queue keeps each hashed queue in exactly one slot |
| ScQueues.RemoveMirrored | schemachange/sc_queues.c:98-112 | removing a queue, registered or not, from both the array and the hash keeps each hashed queue in exactly one slot; with RemoveFromQdbs's contract this is the invariant remove_from_qdbs preserves |
| ScQueues.QueueRegistry.AddToQdbs | schemachange/sc_queues.c:88-96 | db becomes the last of num_qdbs+1 entries with the earlier ones unchanged, and it joins the hash; a registry whose array and hash agree still agrees when db was not registered |
| ScQueues.QueueRegistry.FindQdb | schemachange/sc_queues.c:100-101 | the scan stops at the first slot holding db, or at num_qdbs when no slot does |
| ScQueues.QueueRegistry.RemoveFromQdbs | schemachange/sc_queues.c:98-115 | 0 exactly when db is registered: its first slot is removed, the later ones shift down in order, num_qdbs drops and the hash loses db; -1 with no change otherwise |
| ScQueues.ShiftDown | schemachange/sc_queues.c:107-110 | the shift loop moves each later slot down by one |
| Memdup.MemdupSizeof | util/memdup.c:26-32 | the result is a size_t value |
| Memdup.SizeofPageMultiple | util/memdup.c:26-32 | the size is a multiple of 4096 |
| Memdup.SizeofLeastCover | util/memdup.c:29-31 | without overflow, n <= size < n + 4096, and the size is the least multiple of 4096 that is at least n |
| Memdup.SizeofExact | util/memdup.c:29-30 | the size equals n exactly when n is a multiple of 4096, so 0 gives 0 |
| Memdup.SizeofWraps | util/memdup.c:29-31 | within one page of SIZE_MAX the size wraps to 0 |
| Memdup.CopyContents | util/memdup.c:44-45 | the copy holds the n source bytes followed by zeros up to the page-rounded size |
| Memdup.MemdupReadonly | util/memdup.c:34-52 | null exactly for a null source, a zero-length mapping, or a failing mmap or mprotect; otherwise a fresh buffer holding the copy |
| Memdup.MemdupFree | util/memdup.c:54-65 | nothing happens for null; when the mprotect back to read-write succeeds every byte of the buffer is cleared, otherwise the buffer is left as it was |

## Left out

- Ruleset load, save, dump and free are only declared (`bbinc/comdb2_ruleset.h:214-217`) and are not part of this model. Neither is `comdb2_ruleset_result_to_str`.
- The renderers return the whole string. `snprintf` truncation to the caller's buffer is not modelled.
- `RulesetEval.AdjustPriority`: `-adjustment` and `priority + adjustment` are computed as unbounded integers. In the source both are signed `priority_t` arithmetic with no bound check, so a sum beyond the 64-bit range, or negating the most negative adjustment, is undefined behaviour there. On such inputs the model clamps to the crossed bound, while the compiled code may wrap and clamp to the other one.
- `RulesetText.StrToFlags`: `strtok` writes NULs into the caller's buffer and keeps hidden static state between calls. The model parses an immutable string and has no such state.
- `RulesetText.StrToMatchMode`: the same `strtok` effects on the caller's buffer and hidden state are not modelled.
- `RulesetText.FlagsToStr`: the result is the text written. When no name applies (PRINT alone) or `nBuf` is 0, the source leaves the caller's buffer as it was; the model returns the empty text, and does not model the buffer's earlier contents.
- `RulesetText.MatchModeToStr`: likewise, a mode with only unknown bits or `nBuf` of 0 leaves the caller's buffer as it was; the model returns the empty text.
- `RulesetText.PriorityToStr`: the `%llx` rendering is modelled as the value modulo 2^64, which is how the printed digits read.
- The glob and regular-expression engines, `strcmp`, `strcasecmp` and `memcmp` are uninterpreted functions, apart from the byte-exact instances in `ExactHostRule` and `FingerprintRule`. Logging of unsupported actions is not modelled.
- Mutexes and the atomics of the scheduler are not modelled: `util/schema_lk.c`, `bbinc/pthread_wrap.h`, `util/time_accounting.c`, and the locks in `pqueue` and the fingerprint table. The model is sequential.
- `pqueue` item records: the `{ix, priority}` record embedded in each caller's item is a map inside the queue, keyed by item. Aliasing between the queue and the caller's structures is not modelled, and neither is the byte offset `off`. Only the records of queued items change (`RecordsKeptOutside`).
- `Pqueue.Queue.Add`: integer overflow of `capacity * 2 + 16` and of `count` is not modelled. Whether `realloc` succeeds is the `growOk` parameter.
- `Pqueue.Queue.RemoveNext`: the source decrements `count`, moves the last entry to slot 0 and rewrites its `ix`. The model does the same through `MoveLastInto(0)`; with a single item it only drops it.
- `pqueue_destroy`, the self-test's random driver (`util/pqueue.c:254-355`) and `check` are not modelled as code. The `check` function returns before testing anything. Its `parent(i) > 0` test skips slots whose parent is the root; the child tests cover those edges. Its intent is `Pqueue.HeapOrder` and `Pqueue.Queue.Valid`, which every operation preserves.
- `Pqueue.Queue.Add` requires the item not to be queued already. A second add of a queued item would leave its old slot holding the item with a stale `ix`, which breaks the invariant that each record names its slot, the one `check` tests.
- `PriorityQueueList.Add`: the `assert`s on `p` are its precondition. The asserts at `util/priority_queue.c:98,105` hold because the sentinels are distinct.
- The `priority_queue` list is a sequence, so node allocation and `free` are not modelled. As written, `priority_queue_next` unlinks the front node and returns its data without freeing the node, while `priority_queue_clear` frees every node; `PriorityQueueList.Next` cannot show that leak.
- `PriorityQueueList.ForEach`: the callback is opaque, so the model records the data it receives instead of calling it.
- The fingerprint table leaves several things out:
  - MD5, the `hash_*` library and the `reqlog`/`logmsg` output;
  - the logger fingerprint;
  - the column-name caching and mismatch reporting at `db/db_fingerprint.c:140-226`;
  - 64-bit overflow of the counters.
- `Fingerprint.FingerprintTable.AddFingerprint` requires a found record to hold the same text, which the source asserts at `db/db_fingerprint.c:233-236`.
- `sc_queues.c`: the storage, transaction, broadcast and thread plumbing are not part of this model. That covers `consumer_change`, `do_alter_queues_int`, `add_queue_to_environment`, `perform_trigger_update*`, `add_qdb_file` and `del_qdb_file`. `reopen_queue_dbs` is kept only as `ReopenMovesLast`, its remove then add.
- `ScQueues.QueueRegistry.AddToQdbs`: the source does not check `realloc`, so the model always succeeds. `qdb_hash` is modelled as a set.
- `Memdup.MemdupReadonly`: the outcomes of `mmap` and `mprotect` are the `mmapOk` and `mprotectOk` parameters. The clearing and `munmap` after a failed `mprotect` are not modelled: the model drops the buffer and returns null. Following POSIX, `mmap` refuses a length of 0, which is why an empty copy is null.
- `Memdup.MemdupFree`: the outcome of its `mprotect` is the `mprotectOk` parameter, and the final `munmap` is not modelled, so the cleared array stays allocated.
- `bdb/bdb_schemachange.h` holds only an enum and prototypes, and is not part of this model.
