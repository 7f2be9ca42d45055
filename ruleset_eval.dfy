/**
 * Evaluation of a request ruleset against one client request
 * (db/comdb2_ruleset.c): priority clamping and adjustment, choice of the
 * string comparison function for a rule's match mode, evaluation of one rule
 * and of a whole ruleset.
 *
 * The string and memory comparison functions are external (strcmp,
 * strcasecmp, SQLite's patternCompare, the regular-expression engine,
 * memcmp); they are uninterpreted functions here.
 */
module RulesetEval {
  import opened Wrappers
  import opened Priorities
  import opened RulesetDefs

  /** What re_compile produces: an error, a null program (out of memory), or a compiled program. */
  datatype Compiled = CompileFailed | OutOfMemory | Program(handle: nat)

  /** The external comparison engines the evaluator calls. */
  datatype Engines = Engines(
    strcmp: StrCmp,
    strcasecmp: StrCmp,
    /** patternCompare(pattern, subject, noCase): 0 when the glob matches. */
    patternCompare: (string, string, bool) -> int,
    /** re_compile(pattern, noCase). */
    reCompile: (string, bool) -> Compiled,
    /** re_match(program, subject). */
    reMatch: (nat, string) -> bool
  )

  // ---------------------------------------------------------------------
  // Priority arithmetic
  // ---------------------------------------------------------------------

  function Max(a: int, b: int): int { if a < b then b else a }
  function Min(a: int, b: int): int { if a < b then a else b }

  /** comdb2_clamp_priority: bound a priority to [HIGHEST, LOWEST]. */
  function ClampPriority(pc: PriorityConstants, p: int): (r: int)
    requires pc.Valid()
    ensures pc.InRange(r)
    ensures pc.InRange(p) ==> r == p
    ensures r == Max(pc.highest, Min(pc.lowest, p))
  {
    if p < pc.highest then pc.highest
    else if p > pc.lowest then pc.lowest
    else p
  }

  /** Clamping twice is clamping once. */
  lemma ClampIdempotent(pc: PriorityConstants, p: int)
    requires pc.Valid()
    ensures ClampPriority(pc, ClampPriority(pc, p)) == ClampPriority(pc, p)
  {
  }

  /** Clamping preserves the order of priorities. */
  lemma ClampMonotone(pc: PriorityConstants, p: int, q: int)
    requires pc.Valid() && p <= q
    ensures ClampPriority(pc, p) <= ClampPriority(pc, q)
  {
  }

  /** The signed change a rule's action makes: HIGH_PRIO moves towards more urgent (smaller) values. */
  function SignedAdjustment(action: Word, adjustment: int): int {
    if action == ActionHighPrio then -adjustment else adjustment
  }

  /** comdb2_adjust_priority: move the priority by the adjustment and clamp. */
  function AdjustPriority(pc: PriorityConstants, action: Word, priority: int, adjustment: int): (r: int)
    requires pc.Valid()
    ensures pc.InRange(r)
    ensures pc.InRange(priority + SignedAdjustment(action, adjustment)) ==> r == priority + SignedAdjustment(action, adjustment)
    ensures priority + SignedAdjustment(action, adjustment) < pc.highest ==> r == pc.highest
    ensures priority + SignedAdjustment(action, adjustment) > pc.lowest ==> r == pc.lowest
  {
    var delta := if action == ActionHighPrio then -adjustment else adjustment;
    ClampPriority(pc, priority + delta)
  }

  /**
   * With a non-negative adjustment and a priority already in range, HIGH_PRIO
   * never makes a request less urgent and every other action never makes it
   * more urgent.
   */
  lemma AdjustDirection(pc: PriorityConstants, action: Word, priority: int, adjustment: int)
    requires pc.Valid() && pc.InRange(priority) && adjustment >= 0
    ensures action == ActionHighPrio ==> AdjustPriority(pc, action, priority, adjustment) <= priority
    ensures action != ActionHighPrio ==> AdjustPriority(pc, action, priority, adjustment) >= priority
  {
  }

  /** comdb2_adjust_result_priority: adjust the priority held in a result, in place. */
  method AdjustResultPriority(pc: PriorityConstants, action: Word, adjustment: int, result: RulesetResult)
    requires pc.Valid()
    modifies result
    ensures result.Value() == old(result.Value()).(priority := AdjustPriority(pc, action, old(result.priority), adjustment))
  {
    result.priority := AdjustPriority(pc, action, result.priority, adjustment);
  }

  // ---------------------------------------------------------------------
  // Match modes and comparison functions
  // ---------------------------------------------------------------------

  datatype BaseKind = Exact | Glob | Regexp

  /** A comparison strategy: a base kind, case-sensitive or not. */
  datatype Comparator = Comparator(kind: BaseKind, noCase: bool)

  function KindBit(k: BaseKind): Word {
    match k
    case Exact => ModeExact
    case Glob => ModeGlob
    case Regexp => ModeRegexp
  }

  /**
   * The decision made by comdb2_get_xstrcmp_for_mode: NOCASE is set aside,
   * and what remains must be exactly one of EXACT, GLOB or REGEXP.
   */
  function ResolveMode(mode: Word): (r: Option<Comparator>)
    ensures r.Some? <==> mode & !ModeNoCase in {ModeExact, ModeGlob, ModeRegexp}
    ensures r.Some? ==> KindBit(r.value.kind) == mode & !ModeNoCase
    ensures r.Some? ==> (r.value.noCase <==> mode & ModeNoCase != 0)
  {
    var noCase := mode & ModeNoCase != 0;
    var base := mode & !ModeNoCase;
    if base == ModeExact then Some(Comparator(Exact, noCase))
    else if base == ModeGlob then Some(Comparator(Glob, noCase))
    else if base == ModeRegexp then Some(Comparator(Regexp, noCase))
    else None
  }

  /** Adding or removing NOCASE does not change the base kind chosen, only the case flag. */
  lemma ResolveIgnoresNoCase(mode: Word)
    ensures ResolveMode(mode | ModeNoCase).Some? == ResolveMode(mode & !ModeNoCase).Some?
    ensures ResolveMode(mode | ModeNoCase).Some? ==>
              && ResolveMode(mode | ModeNoCase).value.kind == ResolveMode(mode & !ModeNoCase).value.kind
              && ResolveMode(mode | ModeNoCase).value.noCase
              && !ResolveMode(mode & !ModeNoCase).value.noCase
  {
    assert (mode | ModeNoCase) & !ModeNoCase == (mode & !ModeNoCase) & !ModeNoCase;
    assert (mode & !ModeNoCase) & ModeNoCase == 0;
    assert (mode | ModeNoCase) & ModeNoCase != 0;
  }

  /** NONE, and any combination of two base kinds, yields no comparison function. */
  lemma ResolveRejectsNoneAndCombinations()
    ensures ResolveMode(ModeNone).None? && ResolveMode(ModeNoCase).None?
    ensures ResolveMode(ModeExact | ModeGlob).None?
    ensures ResolveMode(ModeExact | ModeRegexp).None?
    ensures ResolveMode(ModeGlob | ModeRegexp | ModeNoCase).None?
    ensures ResolveMode(ModeInvalid).None?
  {
  }

  /**
   * do_regexp_match: compile the pattern afresh and match the subject;
   * a compile error or an out-of-memory compile is ERROR.
   */
  function DoRegexpMatch(eng: Engines, pattern: string, subject: string, noCase: bool): (r: int)
    ensures r in {StringTrue, StringFalse, StringError}
    ensures StringMatched(r) <==> eng.reCompile(pattern, noCase).Program? && eng.reMatch(eng.reCompile(pattern, noCase).handle, subject)
    ensures r == StringError <==> !eng.reCompile(pattern, noCase).Program?
  {
    match eng.reCompile(pattern, noCase)
    case CompileFailed => StringError
    case OutOfMemory => StringError
    case Program(h) => if eng.reMatch(h, subject) then StringTrue else StringFalse
  }

  /**
   * A string comparison function: the caller's own, or one of the six that
   * comdb2_get_xstrcmp_for_mode chooses from (identified by its strategy).
   */
  datatype StrComparer = Caller(f: StrCmp) | Builtin(c: Comparator)

  /**
   * Calling a comparison function as (subject, pattern). The glob and regexp
   * wrappers pass the pattern first to the engine.
   */
  function Compare(eng: Engines, cmp: StrComparer, subject: string, pattern: string): int {
    match cmp
    case Caller(f) => f(subject, pattern)
    case Builtin(c) =>
      match c.kind
      case Exact => if c.noCase then eng.strcasecmp(subject, pattern) else eng.strcmp(subject, pattern)
      case Glob => eng.patternCompare(pattern, subject, c.noCase)
      case Regexp => DoRegexpMatch(eng, pattern, subject, c.noCase)
  }

  /** comdb2_get_xstrcmp_for_mode. */
  function XStrCmpForMode(mode: Word): (r: Option<StrComparer>)
    ensures r.Some? <==> ResolveMode(mode).Some?
    ensures r.Some? ==> r.value.Builtin?
  {
    match ResolveMode(mode)
    case None => None
    case Some(c) => Some(Builtin(c))
  }

  /**
   * What the comparison function chosen for a mode does: EXACT calls strcmp
   * or strcasecmp as (subject, pattern); GLOB calls patternCompare with the
   * pattern first; REGEXP matches only when the pattern compiles and the
   * engine reports a match.
   */
  lemma XStrCmpForModeBehaviour(mode: Word, eng: Engines, subject: string, pattern: string)
    requires XStrCmpForMode(mode).Some?
    ensures var f := XStrCmpForMode(mode).value;
            var noCase := mode & ModeNoCase != 0;
            && (mode & !ModeNoCase == ModeExact && !noCase ==> Compare(eng, f, subject, pattern) == eng.strcmp(subject, pattern))
            && (mode & !ModeNoCase == ModeExact && noCase ==> Compare(eng, f, subject, pattern) == eng.strcasecmp(subject, pattern))
            && (mode & !ModeNoCase == ModeGlob ==> Compare(eng, f, subject, pattern) == eng.patternCompare(pattern, subject, noCase))
            && (mode & !ModeNoCase == ModeRegexp ==>
                  (Compare(eng, f, subject, pattern) == 0 <==>
                     eng.reCompile(pattern, noCase).Program? && eng.reMatch(eng.reCompile(pattern, noCase).handle, subject)))
  {
    var c := ResolveMode(mode).value;
    assert KindBit(c.kind) == mode & !ModeNoCase;
  }

  // ---------------------------------------------------------------------
  // Evaluating one rule
  // ---------------------------------------------------------------------

  /** The comparison function actually used: the caller's, else the rule's mode's. */
  function EffectiveComparer(stringComparer: Option<StrCmp>, rule: RulesetItem): Option<StrComparer> {
    if stringComparer.Some? then Some(Caller(stringComparer.value)) else XStrCmpForMode(rule.mode)
  }

  /** True when the rule sets at least one string criterion. */
  predicate HasStringCriteria(rule: RulesetItem) {
    rule.originHost.Some? || rule.originTask.Some? || rule.user.Some? || rule.sql.Some?
  }

  /**
   * The string-criteria stage of comdb2_evaluate_ruleset_item: Some(outcome)
   * when it returns early, None when evaluation goes on to the fingerprint.
   */
  function StringStage(eng: Engines, cmp: Option<StrComparer>, rule: RulesetItem, clnt: ClientState): Option<Match> {
    if cmp.Some? then
      var f := cmp.value;
      if rule.originHost.Some? && Compare(eng, f, clnt.originHost, rule.originHost.value) != 0 then Some(MatchFalse)
      else if rule.originTask.Some? && Compare(eng, f, clnt.peName, rule.originTask.value) != 0 then Some(MatchFalse)
      else if rule.user.Some? && (!clnt.haveUser || Compare(eng, f, clnt.user, rule.user.value) != 0) then Some(MatchFalse)
      else if rule.sql.Some? && Compare(eng, f, clnt.sql, rule.sql.value) != 0 then Some(MatchFalse)
      else None
    else if rule.originHost.Some? then Some(MatchNone)
    else if rule.originTask.Some? then Some(MatchNone)
    else if rule.user.Some? then Some(MatchNone)
    else if rule.sql.Some? then Some(MatchNone)
    else None
  }

  /** The fingerprint stage: Some(outcome) when it returns early. */
  function FingerprintStage(memoryComparer: Option<MemCmp>, rule: RulesetItem, clnt: ClientState): Option<Match> {
    if memoryComparer.Some? then
      if rule.fingerprint.Some? && memoryComparer.value(clnt.fingerprint, rule.fingerprint.value, FingerprintSize) != 0
      then Some(MatchFalse)
      else None
    else if rule.fingerprint.Some? then Some(MatchNone)
    else None
  }

  /** The outcome of a rule all of whose criteria are met. */
  function MatchedOutcome(rule: RulesetItem): Match {
    if rule.flags & FlagsStop != 0 then MatchStop else MatchTrue
  }

  /** The outcome comdb2_evaluate_ruleset_item returns. */
  function ItemMatch(stringComparer: Option<StrCmp>, memoryComparer: Option<MemCmp>, eng: Engines,
                     rule: RulesetItem, clnt: ClientState): (m: Match)
    ensures m != MatchError
  {
    var s := StringStage(eng, EffectiveComparer(stringComparer, rule), rule, clnt);
    if s.Some? then s.value
    else
      var f := FingerprintStage(memoryComparer, rule, clnt);
      if f.Some? then f.value else MatchedOutcome(rule)
  }

  /** The effect of a matched rule's action on the result's action word. */
  function ActionAfter(ruleAction: Word, a: Word): Word {
    if ruleAction == ActionReject then a | ActionReject
    else if ruleAction == ActionUnreject then a & !ActionReject
    else a
  }

  /** REJECT sets the REJECT bit and no other. */
  lemma RejectSetsBit(a: Word)
    ensures ActionAfter(ActionReject, a) & ActionReject == ActionReject
    ensures ActionAfter(ActionReject, a) & !ActionReject == a & !ActionReject
  {
  }

  /** UNREJECT clears the REJECT bit and no other: a REJECT_ALL bit survives. */
  lemma UnrejectClearsBit(a: Word)
    ensures ActionAfter(ActionUnreject, a) & ActionReject == 0
    ensures ActionAfter(ActionUnreject, a) & !ActionReject == a & !ActionReject
  {
  }

  /** Every other action, REJECT_ALL and unknown values included, leaves the action word alone. */
  lemma OtherActionsKeepWord(ruleAction: Word, a: Word)
    requires ruleAction != ActionReject && ruleAction != ActionUnreject
    ensures ActionAfter(ruleAction, a) == a
  {
  }

  /** The effect of a matched rule's action on the result's priority. */
  function PriorityAfter(pc: PriorityConstants, ruleAction: Word, adjustment: int, p: int): (p': int)
    requires pc.Valid()
    ensures ruleAction == ActionLowPrio || ruleAction == ActionHighPrio ==> pc.InRange(p')
    ensures ruleAction != ActionLowPrio && ruleAction != ActionHighPrio ==> p' == p
  {
    if ruleAction == ActionLowPrio || ruleAction == ActionHighPrio then AdjustPriority(pc, ruleAction, p, adjustment)
    else p
  }

  /** The effect of a matched rule on the result (the switch on the rule's action). */
  function ApplyAction(pc: PriorityConstants, rule: RulesetItem, r: ResultValue): (r': ResultValue)
    requires pc.Valid()
  {
    ResultValue(ActionAfter(rule.action, r.action), PriorityAfter(pc, rule.action, rule.adjustment, r.priority), r.ruleNo)
  }

  /** The result after a rule with outcome m: only a match changes it. */
  function ResultAfter(pc: PriorityConstants, rule: RulesetItem, m: Match, r: ResultValue): ResultValue
    requires pc.Valid()
  {
    if m.IsMatch() then ApplyAction(pc, rule, r) else r
  }

  /** The switch on a matched rule's action in comdb2_evaluate_ruleset_item. */
  method ApplyRuleAction(pc: PriorityConstants, rule: RulesetItem, result: RulesetResult)
    requires pc.Valid()
    modifies result
    ensures result.Value() == ApplyAction(pc, rule, old(result.Value()))
  {
    if rule.action == ActionNone {
      // the caller only tests for a match
    } else if rule.action == ActionReject {
      result.action := result.action | ActionReject;
    } else if rule.action == ActionUnreject {
      result.action := result.action & !ActionReject;
    } else if rule.action == ActionLowPrio || rule.action == ActionHighPrio {
      AdjustResultPriority(pc, rule.action, rule.adjustment, result);
    } else {
      // unsupported action: logged and otherwise ignored
    }
  }

  /** The string-criteria checks of comdb2_evaluate_ruleset_item: the outcome when they end evaluation early. */
  method CheckStringCriteria(eng: Engines, stringComparer: Option<StrCmp>, rule: RulesetItem, clnt: ClientState)
    returns (early: Option<Match>)
    ensures early == StringStage(eng, EffectiveComparer(stringComparer, rule), rule, clnt)
  {
    var cmp: Option<StrComparer> := None;
    if stringComparer.Some? {
      cmp := Some(Caller(stringComparer.value));
    } else {
      cmp := XStrCmpForMode(rule.mode);
    }
    if cmp.Some? {
      var f := cmp.value;
      if rule.originHost.Some? && Compare(eng, f, clnt.originHost, rule.originHost.value) != 0 {
        return Some(MatchFalse);
      }
      if rule.originTask.Some? && Compare(eng, f, clnt.peName, rule.originTask.value) != 0 {
        return Some(MatchFalse);
      }
      if rule.user.Some? && (!clnt.haveUser || Compare(eng, f, clnt.user, rule.user.value) != 0) {
        return Some(MatchFalse);
      }
      if rule.sql.Some? && Compare(eng, f, clnt.sql, rule.sql.value) != 0 {
        return Some(MatchFalse);
      }
    } else {
      if rule.originHost.Some? { return Some(MatchNone); }
      if rule.originTask.Some? { return Some(MatchNone); }
      if rule.user.Some? { return Some(MatchNone); }
      if rule.sql.Some? { return Some(MatchNone); }
    }
    return None;
  }

  /** The fingerprint check of comdb2_evaluate_ruleset_item: the outcome when it ends evaluation early. */
  method CheckFingerprint(memoryComparer: Option<MemCmp>, rule: RulesetItem, clnt: ClientState)
    returns (early: Option<Match>)
    ensures early == FingerprintStage(memoryComparer, rule, clnt)
  {
    if memoryComparer.Some? {
      if rule.fingerprint.Some? &&
         memoryComparer.value(clnt.fingerprint, rule.fingerprint.value, FingerprintSize) != 0 {
        return Some(MatchFalse);
      }
    } else {
      if rule.fingerprint.Some? { return Some(MatchNone); }
    }
    return None;
  }

  /** comdb2_evaluate_ruleset_item, updating the result in place on a match. */
  method EvaluateRulesetItem(pc: PriorityConstants, eng: Engines, stringComparer: Option<StrCmp>,
                             memoryComparer: Option<MemCmp>, rule: RulesetItem, clnt: ClientState,
                             result: RulesetResult) returns (m: Match)
    requires pc.Valid()
    modifies result
    ensures m == ItemMatch(stringComparer, memoryComparer, eng, rule, clnt)
    ensures result.Value() == ResultAfter(pc, rule, m, old(result.Value()))
  {
    var early := CheckStringCriteria(eng, stringComparer, rule, clnt);
    if early.Some? {
      return early.value;
    }
    early := CheckFingerprint(memoryComparer, rule, clnt);
    if early.Some? {
      return early.value;
    }
    ApplyRuleAction(pc, rule, result);
    m := if rule.flags & FlagsStop != 0 then MatchStop else MatchTrue;
  }

  // ---------------------------------------------------------------------
  // Properties of one rule, against an independent statement of its criteria
  // ---------------------------------------------------------------------

  /** One string criterion: the request's value, the rule's pattern, and whether it may be compared at all. */
  datatype Criterion = Criterion(subject: string, pattern: string, eligible: bool)

  /** The rule's string criteria in evaluation order: origin host, origin task, user, SQL. */
  function Criteria(rule: RulesetItem, clnt: ClientState): seq<Criterion> {
    (if rule.originHost.Some? then [Criterion(clnt.originHost, rule.originHost.value, true)] else [])
    + (if rule.originTask.Some? then [Criterion(clnt.peName, rule.originTask.value, true)] else [])
    + (if rule.user.Some? then [Criterion(clnt.user, rule.user.value, clnt.haveUser)] else [])
    + (if rule.sql.Some? then [Criterion(clnt.sql, rule.sql.value, true)] else [])
  }

  /** Every criterion is eligible and its comparison reports a match. */
  predicate AllCriteriaHold(eng: Engines, f: StrComparer, cs: seq<Criterion>) {
    forall i :: 0 <= i < |cs| ==> cs[i].eligible && StringMatched(Compare(eng, f, cs[i].subject, cs[i].pattern))
  }

  /** The string criteria are decided and met. */
  predicate StringCriteriaMet(eng: Engines, cmp: Option<StrComparer>, rule: RulesetItem, clnt: ClientState) {
    if cmp.Some? then AllCriteriaHold(eng, cmp.value, Criteria(rule, clnt)) else Criteria(rule, clnt) == []
  }

  /** The fingerprint criterion is absent, or decided and met. */
  predicate FingerprintMet(memoryComparer: Option<MemCmp>, rule: RulesetItem, clnt: ClientState) {
    rule.fingerprint.None? ||
    (memoryComparer.Some? && memoryComparer.value(clnt.fingerprint, rule.fingerprint.value, FingerprintSize) == 0)
  }

  lemma CriteriaEmpty(rule: RulesetItem, clnt: ClientState)
    ensures Criteria(rule, clnt) == [] <==> !HasStringCriteria(rule)
  {
  }

  /** The string stage lets evaluation continue exactly when the string criteria are met. */
  lemma StringStageMeaning(eng: Engines, cmp: Option<StrComparer>, rule: RulesetItem, clnt: ClientState)
    ensures StringStage(eng, cmp, rule, clnt).None? <==> StringCriteriaMet(eng, cmp, rule, clnt)
    ensures StringStage(eng, cmp, rule, clnt) == Some(MatchNone) <==> cmp.None? && HasStringCriteria(rule)
    ensures StringStage(eng, cmp, rule, clnt) == Some(MatchFalse) <==>
              cmp.Some? && !AllCriteriaHold(eng, cmp.value, Criteria(rule, clnt))
  {
    CriteriaEmpty(rule, clnt);
    if cmp.Some? {
      var f := cmp.value;
      var h := if rule.originHost.Some? then [Criterion(clnt.originHost, rule.originHost.value, true)] else [];
      var t := if rule.originTask.Some? then [Criterion(clnt.peName, rule.originTask.value, true)] else [];
      var u := if rule.user.Some? then [Criterion(clnt.user, rule.user.value, clnt.haveUser)] else [];
      var q := if rule.sql.Some? then [Criterion(clnt.sql, rule.sql.value, true)] else [];
      var cs := Criteria(rule, clnt);
      assert cs == h + t + u + q;
      AllHoldAppend(eng, f, h, t);
      AllHoldAppend(eng, f, h + t, u);
      AllHoldAppend(eng, f, h + t + u, q);
      if rule.originHost.Some? { AllHoldSingle(eng, f, Criterion(clnt.originHost, rule.originHost.value, true)); }
      if rule.originTask.Some? { AllHoldSingle(eng, f, Criterion(clnt.peName, rule.originTask.value, true)); }
      if rule.user.Some? { AllHoldSingle(eng, f, Criterion(clnt.user, rule.user.value, clnt.haveUser)); }
      if rule.sql.Some? { AllHoldSingle(eng, f, Criterion(clnt.sql, rule.sql.value, true)); }
    }
  }

  lemma AllHoldSingle(eng: Engines, f: StrComparer, c: Criterion)
    ensures AllCriteriaHold(eng, f, [c]) <==> c.eligible && StringMatched(Compare(eng, f, c.subject, c.pattern))
    ensures AllCriteriaHold(eng, f, [])
  {
    assert [c][0] == c;
  }

  lemma AllHoldAppend(eng: Engines, f: StrComparer, a: seq<Criterion>, b: seq<Criterion>)
    ensures AllCriteriaHold(eng, f, a + b) <==> AllCriteriaHold(eng, f, a) && AllCriteriaHold(eng, f, b)
  {
    if AllCriteriaHold(eng, f, a) && AllCriteriaHold(eng, f, b) {
      forall i | 0 <= i < |a + b|
        ensures (a + b)[i].eligible && StringMatched(Compare(eng, f, (a + b)[i].subject, (a + b)[i].pattern))
      {
        if i >= |a| { assert (a + b)[i] == b[i - |a|]; }
      }
    }
    if AllCriteriaHold(eng, f, a + b) {
      forall i | 0 <= i < |a| ensures a[i].eligible && StringMatched(Compare(eng, f, a[i].subject, a[i].pattern)) {
        assert (a + b)[i] == a[i];
      }
      forall i | 0 <= i < |b| ensures b[i].eligible && StringMatched(Compare(eng, f, b[i].subject, b[i].pattern)) {
        assert (a + b)[|a| + i] == b[i];
      }
    }
  }

  /**
   * A rule matches exactly when its string criteria are decided and met and
   * its fingerprint criterion is absent or decided and met.
   */
  lemma ItemMatchesIffCriteriaMet(stringComparer: Option<StrCmp>, memoryComparer: Option<MemCmp>, eng: Engines,
                                  rule: RulesetItem, clnt: ClientState)
    ensures ItemMatch(stringComparer, memoryComparer, eng, rule, clnt).IsMatch() <==>
              StringCriteriaMet(eng, EffectiveComparer(stringComparer, rule), rule, clnt)
              && FingerprintMet(memoryComparer, rule, clnt)
    ensures ItemMatch(stringComparer, memoryComparer, eng, rule, clnt).IsMatch() ==>
              ItemMatch(stringComparer, memoryComparer, eng, rule, clnt) == MatchedOutcome(rule)
  {
    StringStageMeaning(eng, EffectiveComparer(stringComparer, rule), rule, clnt);
  }

  /**
   * Any string criterion that fails (or a user criterion without an
   * authenticated user) makes the rule FALSE and leaves the result alone,
   * whatever the fingerprint criterion says: strings are decided first.
   */
  lemma FailingCriterionIsFalse(pc: PriorityConstants, eng: Engines, stringComparer: Option<StrCmp>,
                                memoryComparer: Option<MemCmp>, rule: RulesetItem, clnt: ClientState,
                                r: ResultValue, k: nat)
    requires pc.Valid()
    requires EffectiveComparer(stringComparer, rule).Some?
    requires k < |Criteria(rule, clnt)|
    requires var c := Criteria(rule, clnt)[k];
             !c.eligible || !StringMatched(Compare(eng, EffectiveComparer(stringComparer, rule).value, c.subject, c.pattern))
    ensures ItemMatch(stringComparer, memoryComparer, eng, rule, clnt) == MatchFalse
    ensures ResultAfter(pc, rule, ItemMatch(stringComparer, memoryComparer, eng, rule, clnt), r) == r
  {
    StringStageMeaning(eng, EffectiveComparer(stringComparer, rule), rule, clnt);
  }

  /**
   * Without a comparison function, any string criterion makes the rule NONE
   * (not evaluable), whatever the fingerprint; so does a fingerprint
   * criterion without a memory comparison function once the strings pass.
   * The result is left alone in both cases.
   */
  lemma UnevaluableRuleIsNone(pc: PriorityConstants, eng: Engines, stringComparer: Option<StrCmp>,
                              memoryComparer: Option<MemCmp>, rule: RulesetItem, clnt: ClientState, r: ResultValue)
    requires pc.Valid()
    requires || (EffectiveComparer(stringComparer, rule).None? && HasStringCriteria(rule))
             || (StringCriteriaMet(eng, EffectiveComparer(stringComparer, rule), rule, clnt)
                 && memoryComparer.None? && rule.fingerprint.Some?)
    ensures ItemMatch(stringComparer, memoryComparer, eng, rule, clnt) == MatchNone
    ensures ResultAfter(pc, rule, ItemMatch(stringComparer, memoryComparer, eng, rule, clnt), r) == r
  {
    StringStageMeaning(eng, EffectiveComparer(stringComparer, rule), rule, clnt);
  }

  /**
   * A rule without criteria matches for every request and every choice of
   * comparison functions: STOP exactly when it has the STOP flag.
   */
  lemma CatchAllRuleMatches(stringComparer: Option<StrCmp>, memoryComparer: Option<MemCmp>, eng: Engines,
                            rule: RulesetItem, clnt: ClientState)
    requires !HasStringCriteria(rule) && rule.fingerprint.None?
    ensures ItemMatch(stringComparer, memoryComparer, eng, rule, clnt) ==
              (if rule.flags & FlagsStop != 0 then MatchStop else MatchTrue)
  {
  }

  /**
   * Under EXACT mode with a byte-exact strcmp, a rule whose only criterion is
   * the origin host matches exactly the requests from that host.
   */
  lemma ExactHostRule(eng: Engines, rule: RulesetItem, clnt: ClientState)
    requires forall a: string, b: string :: eng.strcmp(a, b) == 0 <==> a == b
    requires rule.mode == ModeExact && rule.originHost.Some?
    requires rule.originTask.None? && rule.user.None? && rule.sql.None? && rule.fingerprint.None?
    ensures ItemMatch(None, None, eng, rule, clnt).IsMatch() <==> clnt.originHost == rule.originHost.value
  {
    ItemMatchesIffCriteriaMet(None, None, eng, rule, clnt);
    XStrCmpForModeBehaviour(rule.mode, eng, clnt.originHost, rule.originHost.value);
    assert Criteria(rule, clnt) == [Criterion(clnt.originHost, rule.originHost.value, true)];
  }

  /**
   * With memcmp as the memory comparison, a rule whose only criterion is a
   * fingerprint matches exactly the requests with that fingerprint: one
   * differing byte is a mismatch.
   */
  lemma FingerprintRule(stringComparer: Option<StrCmp>, eng: Engines, mc: MemCmp, rule: RulesetItem, clnt: ClientState)
    requires forall a: seq<Byte>, b: seq<Byte> :: |a| == |b| == FingerprintSize ==> (mc(a, b, FingerprintSize) == 0 <==> a == b)
    requires !HasStringCriteria(rule) && rule.fingerprint.Some?
    ensures ItemMatch(stringComparer, Some(mc), eng, rule, clnt).IsMatch() <==> clnt.fingerprint == rule.fingerprint.value
  {
  }


  // ---------------------------------------------------------------------
  // Evaluating a ruleset
  // ---------------------------------------------------------------------

  /** The outcome of each rule of the sequence for the request, in order. */
  function Outcomes(stringComparer: Option<StrCmp>, memoryComparer: Option<MemCmp>, eng: Engines,
                    rules: seq<RulesetItem>, clnt: ClientState): (ms: seq<Match>)
    ensures |ms| == |rules|
    ensures forall k :: 0 <= k < |rules| ==> ms[k] == ItemMatch(stringComparer, memoryComparer, eng, rules[k], clnt)
  {
    if rules == [] then []
    else [ItemMatch(stringComparer, memoryComparer, eng, rules[0], clnt)]
         + Outcomes(stringComparer, memoryComparer, eng, rules[1..], clnt)
  }

  /** The outcomes of a concatenation are the concatenated outcomes. */
  lemma OutcomesAppend(stringComparer: Option<StrCmp>, memoryComparer: Option<MemCmp>, eng: Engines,
                       rules: seq<RulesetItem>, later: seq<RulesetItem>, clnt: ClientState)
    ensures Outcomes(stringComparer, memoryComparer, eng, rules + later, clnt) ==
            Outcomes(stringComparer, memoryComparer, eng, rules, clnt) + Outcomes(stringComparer, memoryComparer, eng, later, clnt)
  {
    var all := Outcomes(stringComparer, memoryComparer, eng, rules + later, clnt);
    var split := Outcomes(stringComparer, memoryComparer, eng, rules, clnt) + Outcomes(stringComparer, memoryComparer, eng, later, clnt);
    forall k | 0 <= k < |all| ensures all[k] == split[k] {
      if k < |rules| { assert (rules + later)[k] == rules[k]; }
      else { assert (rules + later)[k] == later[k - |rules|]; }
    }
  }

  /**
   * Rules with known outcomes evaluated in order against a shared result:
   * the number of matches and the final result. Evaluation ends after the
   * first STOP.
   */
  function EvalRules(pc: PriorityConstants, rules: seq<RulesetItem>, ms: seq<Match>, r: ResultValue): (nat, ResultValue)
    requires pc.Valid() && |ms| == |rules|
  {
    if rules == [] then (0, r)
    else
      var r1 := ResultAfter(pc, rules[0], ms[0], r);
      if ms[0] == MatchStop then (1, r1)
      else
        var (c, r2) := EvalRules(pc, rules[1..], ms[1..], r1);
        (if ms[0] == MatchTrue then c + 1 else c, r2)
  }

  /** What comdb2_evaluate_ruleset computes for a request: the rules evaluated with their own outcomes. */
  function EvalRuleset(pc: PriorityConstants, eng: Engines, stringComparer: Option<StrCmp>, memoryComparer: Option<MemCmp>,
                       rules: seq<RulesetItem>, clnt: ClientState, r: ResultValue): (nat, ResultValue)
    requires pc.Valid()
  {
    EvalRules(pc, rules, Outcomes(stringComparer, memoryComparer, eng, rules, clnt), r)
  }

  /**
   * One iteration of the loop in comdb2_evaluate_ruleset: if the remaining
   * rules yield (total count - count so far, final result), then after the
   * first of them either it was STOP and the count is complete, or the rest
   * yield the remainder.
   */
  lemma EvalRulesetStep(pc: PriorityConstants, eng: Engines, stringComparer: Option<StrCmp>,
                        memoryComparer: Option<MemCmp>, rest: seq<RulesetItem>, clnt: ClientState,
                        before: ResultValue, count: nat, total: (nat, ResultValue))
    requires pc.Valid() && rest != []
    requires count <= total.0
    requires EvalRuleset(pc, eng, stringComparer, memoryComparer, rest, clnt, before) == (total.0 - count, total.1)
    ensures var m := ItemMatch(stringComparer, memoryComparer, eng, rest[0], clnt);
            var after := ResultAfter(pc, rest[0], m, before);
            && (m == MatchStop ==> count + 1 == total.0 && after == total.1)
            && (m != MatchStop ==>
                  var count' := if m == MatchTrue then count + 1 else count;
                  && count' <= total.0
                  && EvalRuleset(pc, eng, stringComparer, memoryComparer, rest[1..], clnt, after) == (total.0 - count', total.1))
  {
    var ms := Outcomes(stringComparer, memoryComparer, eng, rest, clnt);
    assert ms[0] == ItemMatch(stringComparer, memoryComparer, eng, rest[0], clnt);
    assert ms[1..] == Outcomes(stringComparer, memoryComparer, eng, rest[1..], clnt);
    var after := ResultAfter(pc, rest[0], ms[0], before);
    if ms[0] != MatchStop {
      var tail := EvalRules(pc, rest[1..], ms[1..], after);
      assert EvalRules(pc, rest, ms, before) == (if ms[0] == MatchTrue then tail.0 + 1 else tail.0, tail.1);
    }
  }

  /** comdb2_evaluate_ruleset: evaluate the first nRule rules in order, stopping at the first STOP. */
  method EvaluateRuleset(pc: PriorityConstants, eng: Engines, stringComparer: Option<StrCmp>,
                         memoryComparer: Option<MemCmp>, rules: Ruleset, clnt: ClientState,
                         result: RulesetResult) returns (count: nat)
    requires pc.Valid() && rules.Valid()
    modifies result
    ensures (count, result.Value()) ==
              EvalRuleset(pc, eng, stringComparer, memoryComparer, rules.aRule[..rules.nRule], clnt, old(result.Value()))
  {
    ghost var rest := rules.aRule[..rules.nRule];
    ghost var total := EvalRuleset(pc, eng, stringComparer, memoryComparer, rest, clnt, result.Value());
    count := 0;
    var i := 0;
    while i < rules.nRule
      invariant 0 <= i <= rules.nRule
      invariant rest == rules.aRule[i..rules.nRule]
      invariant count <= total.0
      invariant EvalRuleset(pc, eng, stringComparer, memoryComparer, rest, clnt, result.Value()) == (total.0 - count, total.1)
    {
      assert rest[0] == rules.aRule[i];
      EvalRulesetStep(pc, eng, stringComparer, memoryComparer, rest, clnt, result.Value(), count, total);
      var m := EvaluateRulesetItem(pc, eng, stringComparer, memoryComparer, rules.aRule[i], clnt, result);
      if m == MatchStop {
        count := count + 1;
        break;
      }
      if m == MatchTrue {
        count := count + 1;
      }
      i := i + 1;
      rest := rest[1..];
    }
  }

  /** The number of matching outcomes (TRUE or STOP). */
  function MatchCount(ms: seq<Match>): (n: nat)
    ensures n <= |ms|
  {
    if ms == [] then 0
    else (if ms[0].IsMatch() then 1 else 0) + MatchCount(ms[1..])
  }

  /** The length of the prefix up to and including the first STOP (everything if none stops). */
  function StopPrefix(ms: seq<Match>): (k: nat)
    ensures k <= |ms|
    ensures ms != [] ==> k >= 1
    ensures forall j :: 0 <= j < k - 1 ==> ms[j] != MatchStop
    ensures k == |ms| || ms[k - 1] == MatchStop
  {
    if ms == [] then 0
    else if ms[0] == MatchStop then 1
    else 1 + StopPrefix(ms[1..])
  }

  /**
   * The count returned is the number of matching rules, in order, up to and
   * including the first STOP; it never exceeds the number of rules.
   */
  lemma {:induction false} CountIsMatchesUpToStop(pc: PriorityConstants, rules: seq<RulesetItem>, ms: seq<Match>,
                                                  r: ResultValue)
    requires pc.Valid() && |ms| == |rules|
    ensures EvalRules(pc, rules, ms, r).0 == MatchCount(ms[..StopPrefix(ms)])
    ensures EvalRules(pc, rules, ms, r).0 <= |rules|
  {
    if rules != [] {
      var k := StopPrefix(ms);
      if ms[0] == MatchStop {
        assert ms[..k] == [ms[0]];
        assert ms[..k][1..] == [];
      } else {
        CountIsMatchesUpToStop(pc, rules[1..], ms[1..], ResultAfter(pc, rules[0], ms[0], r));
        assert ms[..k][0] == ms[0];
        assert ms[..k][1..] == ms[1..][..k - 1];
      }
    }
  }

  /** Once a STOP outcome is reached, nothing appended after it is evaluated. */
  lemma {:induction false} StopEndsEvaluation(pc: PriorityConstants, rules: seq<RulesetItem>, ms: seq<Match>,
                                              later: seq<RulesetItem>, laterMs: seq<Match>, r: ResultValue)
    requires pc.Valid() && |ms| == |rules| && |laterMs| == |later|
    requires ms != [] && ms[|ms| - 1] == MatchStop
    ensures EvalRules(pc, rules + later, ms + laterMs, r) == EvalRules(pc, rules, ms, r)
  {
    assert (rules + later)[0] == rules[0] && (ms + laterMs)[0] == ms[0];
    if ms[0] != MatchStop {
      assert (rules + later)[1..] == rules[1..] + later;
      assert (ms + laterMs)[1..] == ms[1..] + laterMs;
      StopEndsEvaluation(pc, rules[1..], ms[1..], later, laterMs, ResultAfter(pc, rules[0], ms[0], r));
    }
  }

  /** Rules after the first STOP rule are never evaluated: appending anything after it changes nothing. */
  lemma RulesAfterStopIgnored(pc: PriorityConstants, eng: Engines, stringComparer: Option<StrCmp>,
                              memoryComparer: Option<MemCmp>, rules: seq<RulesetItem>,
                              later: seq<RulesetItem>, clnt: ClientState, r: ResultValue)
    requires pc.Valid()
    requires rules != [] && ItemMatch(stringComparer, memoryComparer, eng, rules[|rules| - 1], clnt) == MatchStop
    ensures EvalRuleset(pc, eng, stringComparer, memoryComparer, rules + later, clnt, r) ==
            EvalRuleset(pc, eng, stringComparer, memoryComparer, rules, clnt, r)
  {
    OutcomesAppend(stringComparer, memoryComparer, eng, rules, later, clnt);
    StopEndsEvaluation(pc, rules, Outcomes(stringComparer, memoryComparer, eng, rules, clnt),
                       later, Outcomes(stringComparer, memoryComparer, eng, later, clnt), r);
  }

  /** Starting from a priority in range, the final priority is in range and the rule number is untouched. */
  lemma {:induction false} FinalPriorityInRange(pc: PriorityConstants, rules: seq<RulesetItem>, ms: seq<Match>,
                                                r: ResultValue)
    requires pc.Valid() && |ms| == |rules| && pc.InRange(r.priority)
    ensures pc.InRange(EvalRules(pc, rules, ms, r).1.priority)
    ensures EvalRules(pc, rules, ms, r).1.ruleNo == r.ruleNo
  {
    if rules != [] && ms[0] != MatchStop {
      FinalPriorityInRange(pc, rules[1..], ms[1..], ResultAfter(pc, rules[0], ms[0], r));
    }
  }

  /** A rule with the given action and flags and no criteria at all. */
  function CatchAll(action: Word, flags: Word): RulesetItem {
    RulesetItem(1, action, 0, flags, ModeDefault, None, None, None, None, None)
  }

  /** [catch-all with STOP, catch-all]: one match, and only the first rule acts. */
  lemma StopAfterFirstRule(pc: PriorityConstants, eng: Engines, stringComparer: Option<StrCmp>,
                           memoryComparer: Option<MemCmp>, first: RulesetItem, second: RulesetItem,
                           clnt: ClientState, r: ResultValue)
    requires pc.Valid()
    requires !HasStringCriteria(first) && first.fingerprint.None? && first.flags & FlagsStop != 0
    requires !HasStringCriteria(second) && second.fingerprint.None?
    ensures EvalRuleset(pc, eng, stringComparer, memoryComparer, [first, second], clnt, r) == (1, ApplyAction(pc, first, r))
  {
    CatchAllRuleMatches(stringComparer, memoryComparer, eng, first, clnt);
  }

  /**
   * [REJECT_ALL catch-all, UNREJECT+STOP catch-all]: both match, but
   * REJECT_ALL is not applied and UNREJECT clears only the REJECT bit.
   */
  lemma RejectAllThenUnreject(pc: PriorityConstants, eng: Engines, stringComparer: Option<StrCmp>,
                              memoryComparer: Option<MemCmp>, clnt: ClientState, r: ResultValue)
    requires pc.Valid()
    ensures var res := EvalRuleset(pc, eng, stringComparer, memoryComparer,
                                   [CatchAll(ActionRejectAll, FlagsNone), CatchAll(ActionUnreject, FlagsStop)], clnt, r);
            && res.0 == 2
            && res.1 == r.(action := ActionAfter(ActionUnreject, r.action))
            && res.1.action & ActionReject == 0
  {
    var rules := [CatchAll(ActionRejectAll, FlagsNone), CatchAll(ActionUnreject, FlagsStop)];
    assert rules[1..] == [CatchAll(ActionUnreject, FlagsStop)];
    CatchAllRuleMatches(stringComparer, memoryComparer, eng, rules[0], clnt);
    CatchAllRuleMatches(stringComparer, memoryComparer, eng, rules[1], clnt);
    var ms := Outcomes(stringComparer, memoryComparer, eng, rules, clnt);
    assert ms == [MatchTrue, MatchStop];
    assert ms[1..] == [MatchStop];
    OtherActionsKeepWord(ActionRejectAll, r.action);
    assert ResultAfter(pc, rules[0], MatchTrue, r) == r;
    var last := ResultAfter(pc, rules[1], MatchStop, r);
    assert EvalRules(pc, rules[1..], ms[1..], r) == (1, last);
    assert EvalRules(pc, rules, ms, r) == (2, last);
    UnrejectClearsBit(r.action);
  }
}
