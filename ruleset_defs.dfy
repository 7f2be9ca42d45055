/**
 * The data of the request ruleset engine: the enumerations and records that
 * describe a ruleset, one rule of it, the client request it is evaluated
 * against and the result it accumulates (bbinc/comdb2_ruleset.h).
 *
 * The C enumerations are `int`-sized bit words and are combined with `|`, `&`
 * and `~`, so they are modelled as 32-bit words; `-1` is the all-ones word.
 */
module RulesetDefs {
  import opened Wrappers

  type Word = bv32
  type Byte = bv8

  /** Size in bytes of a SQL fingerprint (FPSZ). */
  const FingerprintSize: nat := 16

  type Fingerprint = s: seq<Byte> | |s| == FingerprintSize witness seq(16, _ => 0)

  // enum ruleset_action
  const ActionInvalid: Word := 0xFFFF_FFFF
  const ActionNone: Word := 0
  const ActionReject: Word := 1
  const ActionRejectAll: Word := 2
  const ActionUnreject: Word := 4
  const ActionLowPrio: Word := 8
  const ActionHighPrio: Word := 16
  const ActionRejectMask: Word := ActionReject | ActionRejectAll

  /** The five actions that are single bits. */
  const ActionBits: seq<Word> := [ActionReject, ActionRejectAll, ActionUnreject, ActionLowPrio, ActionHighPrio]

  // enum ruleset_flags
  const FlagsInvalid: Word := 0xFFFF_FFFF
  const FlagsNone: Word := 0
  const FlagsPrint: Word := 1
  const FlagsStop: Word := 2

  // enum ruleset_match_mode
  const ModeInvalid: Word := 0xFFFF_FFFF
  const ModeNone: Word := 0
  const ModeExact: Word := 1
  const ModeGlob: Word := 2
  const ModeRegexp: Word := 4
  const ModeNoCase: Word := 8
  const ModeDefault: Word := ModeExact

  // enum ruleset_string_match: what a string comparison function returns
  const StringTrue: int := 0
  const StringFalse: int := 1
  const StringError: int := 2

  /** A string comparison function (xStrCmp): (subject, pattern), 0 means matched. */
  type StrCmp = (string, string) -> int

  /** A memory comparison function (xMemCmp), called like memcmp: 0 means equal. */
  type MemCmp = (seq<Byte>, seq<Byte>, nat) -> int

  /** A comparison result that means "matched"; FALSE and ERROR both do not. */
  predicate StringMatched(rc: int) {
    rc == StringTrue
  }

  /** enum ruleset_match: the outcome of evaluating one rule or a ruleset. */
  datatype Match = MatchNone | MatchFalse | MatchTrue | MatchStop | MatchError {
    /** The value the C enumeration gives each outcome. */
    function Code(): int {
      match this
      case MatchNone => 0
      case MatchFalse => 1
      case MatchTrue => 2
      case MatchStop => 4
      case MatchError => 8
    }

    /** TRUE and STOP are the outcomes that count as a match. */
    predicate IsMatch() {
      this == MatchTrue || this == MatchStop
    }
  }

  /** struct ruleset_item: one rule. Absent criteria are NULL pointers in the source. */
  datatype RulesetItem = RulesetItem(
    ruleNo: int,
    action: Word,
    adjustment: int,
    flags: Word,
    mode: Word,
    originHost: Option<string>,
    originTask: Option<string>,
    user: Option<string>,
    sql: Option<string>,
    fingerprint: Option<Fingerprint>
  )

  /** struct ruleset: `aRule` holds at least `nRule` items. */
  datatype Ruleset = Ruleset(
    generation: nat,
    nRule: nat,
    nFingerprint: nat,
    aRule: seq<RulesetItem>
  ) {
    predicate Valid() {
      nRule <= |aRule|
    }
  }

  /** The attributes of a client request (struct sqlclntstate) that rules inspect. */
  datatype ClientState = ClientState(
    originHost: string,
    peName: string,
    haveUser: bool,
    user: string,
    sql: string,
    fingerprint: Fingerprint
  )

  /** The value of a ruleset_result at one moment. */
  datatype ResultValue = ResultValue(action: Word, priority: int, ruleNo: int)

  /** struct ruleset_result: the accumulator that rule evaluation updates in place. */
  class RulesetResult {
    var action: Word
    var priority: int
    var ruleNo: int

    constructor (action: Word, priority: int)
      ensures Value() == ResultValue(action, priority, 0)
    {
      this.action := action;
      this.priority := priority;
      this.ruleNo := 0;
    }

    function Value(): ResultValue
      reads this
    {
      ResultValue(action, priority, ruleNo)
    }
  }

  /** The action values are distinct single bits (besides NONE), and the reject mask is REJECT|REJECT_ALL. */
  lemma ActionEncoding()
    ensures ActionNone == 0 && ActionReject == 1 && ActionRejectAll == 2
    ensures ActionUnreject == 4 && ActionLowPrio == 8 && ActionHighPrio == 16
    ensures forall i, j :: 0 <= i < j < |ActionBits| ==> ActionBits[i] & ActionBits[j] == 0
    ensures ActionRejectMask == 3
  {
  }

  /** NOCASE is a bit apart from the three base kinds; DEFAULT is EXACT. */
  lemma ModeEncoding()
    ensures ModeNone == 0 && ModeExact == 1 && ModeGlob == 2 && ModeRegexp == 4 && ModeNoCase == 8
    ensures ModeNoCase & (ModeExact | ModeGlob | ModeRegexp) == 0
    ensures ModeExact & ModeGlob == 0 && ModeExact & ModeRegexp == 0 && ModeGlob & ModeRegexp == 0
    ensures ModeDefault == ModeExact
  {
  }

  /** The flag values, and STOP is independent of PRINT. */
  lemma FlagsEncoding()
    ensures FlagsNone == 0 && FlagsPrint == 1 && FlagsStop == 2
    ensures FlagsPrint & FlagsStop == 0
  {
  }

  /** Only a return of 0 is a match: both FALSE and ERROR are non-zero. */
  lemma StringMatchEncoding()
    ensures StringMatched(StringTrue)
    ensures !StringMatched(StringFalse) && !StringMatched(StringError)
    ensures StringFalse != StringError
  {
  }

  /** The five match outcomes have distinct codes and only TRUE and STOP are matches. */
  lemma MatchEncoding()
    ensures forall m: Match, n: Match :: m != n ==> m.Code() != n.Code()
    ensures forall m: Match :: m.IsMatch() <==> m in {MatchTrue, MatchStop}
  {
  }
}
