/**
 * The text forms of a rule's action, flags, match mode and priority
 * (db/comdb2_ruleset.c): the parsers that turn a configuration token into an
 * enumeration word and the renderers that turn a word back into text.
 *
 * Renderers write into a caller's buffer with snprintf in the source; here
 * they return the whole, untruncated string.
 */
module RulesetText {
  import opened Wrappers
  import opened Priorities
  import opened RulesetDefs

  // ---------------------------------------------------------------------
  // Characters
  // ---------------------------------------------------------------------

  /** isspace in the C locale: space, \t, \n, \v, \f, \r. */
  predicate IsSpace(c: char) {
    c == ' ' || c == '\t' || c == '\n' || c == 11 as char || c == 12 as char || c == '\r'
  }

  /** A character of RULESET_DELIM, the separators between tokens: the white space above and ','. */
  predicate IsDelim(c: char) {
    IsSpace(c) || c == ','
  }

  /** sqlite3_stricmp folds ASCII upper-case letters only. */
  function FoldCase(c: char): char {
    if 'A' <= c <= 'Z' then (c as int + 32) as char else c
  }

  /** sqlite3_stricmp(a, b) == 0: the same length and the same letters up to ASCII case. */
  predicate EqualsNoCase(a: string, b: string) {
    |a| == |b| && forall i :: 0 <= i < |a| ==> FoldCase(a[i]) == FoldCase(b[i])
  }

  lemma SameTextEqual(a: string)
    ensures EqualsNoCase(a, a)
  {
  }

  /** Two texts that differ, up to case, at one position are not equal. */
  lemma DifferentAt(a: string, b: string, i: nat)
    requires i < |a| && i < |b| && FoldCase(a[i]) != FoldCase(b[i])
    ensures !EqualsNoCase(a, b)
  {
  }

  /** The text after its leading white space. */
  function SkipSpace(s: string): (r: string)
    ensures |r| <= |s| && r == s[|s| - |r|..]
    ensures r == [] || !IsSpace(r[0])
  {
    if s != [] && IsSpace(s[0]) then SkipSpace(s[1..]) else s
  }

  // ---------------------------------------------------------------------
  // Tokens (strtok over RULESET_DELIM)
  // ---------------------------------------------------------------------

  /** The length of the token at the start of s: its run of non-delimiters. */
  function TokenLength(s: string): (n: nat)
    ensures n <= |s|
    ensures forall i :: 0 <= i < n ==> !IsDelim(s[i])
    ensures n == |s| || IsDelim(s[n])
  {
    if s == [] || IsDelim(s[0]) then 0 else 1 + TokenLength(s[1..])
  }

  /** The tokens strtok returns one by one: the maximal non-empty runs of non-delimiters. */
  function Tokens(s: string): (ts: seq<string>)
    decreases |s|
  {
    if s == [] then []
    else if IsDelim(s[0]) then Tokens(s[1..])
    else
      var n := TokenLength(s);
      [s[..n]] + Tokens(s[n..])
  }

  /** A word that strtok returns whole: non-empty and free of delimiters. */
  predicate IsWord(w: string) {
    w != [] && forall i :: 0 <= i < |w| ==> !IsDelim(w[i])
  }

  /** Each word preceded by one space, the way the renderers write several names. */
  function SpaceJoined(ws: seq<string>): string {
    if ws == [] then [] else " " + ws[0] + SpaceJoined(ws[1..])
  }

  /** A word followed by nothing or by a delimiter is the next token. */
  lemma {:induction false} TokensOfWord(w: string, rest: string)
    requires IsWord(w)
    requires rest == [] || IsDelim(rest[0])
    ensures Tokens(w + rest) == [w] + Tokens(rest)
  {
    TokenLengthOfWord(w, rest);
    assert (w + rest)[..|w|] == w;
    assert (w + rest)[|w|..] == rest;
  }

  lemma {:induction false} TokenLengthOfWord(w: string, rest: string)
    requires forall i :: 0 <= i < |w| ==> !IsDelim(w[i])
    requires rest == [] || IsDelim(rest[0])
    ensures TokenLength(w + rest) == |w|
    decreases |w|
  {
    if w == [] {
      assert w + rest == rest;
    } else {
      assert (w + rest)[1..] == w[1..] + rest;
      TokenLengthOfWord(w[1..], rest);
    }
  }

  /** strtok recovers the words of a space-joined list. */
  lemma {:induction false} TokensOfSpaceJoined(ws: seq<string>)
    requires forall i :: 0 <= i < |ws| ==> IsWord(ws[i])
    ensures Tokens(SpaceJoined(ws)) == ws
  {
    if ws != [] {
      var rest := SpaceJoined(ws[1..]);
      assert SpaceJoined(ws) == " " + (ws[0] + rest);
      assert (" " + (ws[0] + rest))[1..] == ws[0] + rest;
      assert rest == [] || rest[0] == ' ';
      TokensOfWord(ws[0], rest);
      TokensOfSpaceJoined(ws[1..]);
      assert ws == [ws[0]] + ws[1..];
    }
  }

  // ---------------------------------------------------------------------
  // Actions
  // ---------------------------------------------------------------------

  /** The action a name stands for, INVALID for any other text (REJECT_ALL has no name). */
  function ActionNamed(s: string): Word {
    if EqualsNoCase(s, "NONE") then ActionNone
    else if EqualsNoCase(s, "REJECT") then ActionReject
    else if EqualsNoCase(s, "UNREJECT") then ActionUnreject
    else if EqualsNoCase(s, "LOW_PRIO") then ActionLowPrio
    else if EqualsNoCase(s, "HIGH_PRIO") then ActionHighPrio
    else ActionInvalid
  }

  /** What comdb2_ruleset_str_to_action stores: INVALID for a null buffer, else the name after leading white space. */
  function ActionOf(zBuf: Option<string>): Word {
    if zBuf.None? then ActionInvalid else ActionNamed(SkipSpace(zBuf.value))
  }

  /** comdb2_ruleset_str_to_action. */
  method StrToAction(zBuf: Option<string>) returns (action: Word)
    ensures action == ActionOf(zBuf)
  {
    action := ActionInvalid;
    if zBuf.None? {
      return;
    }
    var s := zBuf.value;
    var i := 0;
    while i < |s| && IsSpace(s[i])
      invariant 0 <= i <= |s|
      invariant SkipSpace(s) == SkipSpace(s[i..])
    {
      assert s[i..][1..] == s[i + 1..];
      i := i + 1;
    }
    var rest := s[i..];
    if EqualsNoCase(rest, "NONE") {
      action := ActionNone;
    } else if EqualsNoCase(rest, "REJECT") {
      action := ActionReject;
    } else if EqualsNoCase(rest, "UNREJECT") {
      action := ActionUnreject;
    } else if EqualsNoCase(rest, "LOW_PRIO") {
      action := ActionLowPrio;
    } else if EqualsNoCase(rest, "HIGH_PRIO") {
      action := ActionHighPrio;
    }
  }

  /** The name comdb2_ruleset_action_to_str gives an action, if it has one. */
  function ActionName(action: Word): Option<string> {
    if action == ActionNone then Some("NONE")
    else if action == ActionReject then Some("REJECT")
    else if action == ActionUnreject then Some("UNREJECT")
    else if action == ActionLowPrio then Some("LOW_PRIO")
    else if action == ActionHighPrio then Some("HIGH_PRIO")
    else None
  }

  /**
   * comdb2_ruleset_action_to_str: the name; for any other value nothing when
   * strict, else the value in hexadecimal ("0x%x").
   */
  function ActionToStr(action: Word, strict: bool): (r: Option<string>)
    ensures ActionName(action).Some? ==> r == ActionName(action)
    ensures ActionName(action).None? ==> (r.None? <==> strict)
    ensures ActionName(action).None? && !strict ==> r == Some("0x" + Hex(action as nat))
  {
    if ActionName(action).Some? then ActionName(action)
    else if strict then None
    else Some("0x" + Hex(action as nat))
  }

  /** The five named actions are the ones with a name; REJECT_ALL and INVALID are not among them. */
  lemma NamedActions(action: Word)
    ensures ActionName(action).Some? <==>
              action == ActionNone || action == ActionReject || action == ActionUnreject
              || action == ActionLowPrio || action == ActionHighPrio
    ensures ActionName(ActionRejectAll).None? && ActionName(ActionInvalid).None?
  {
  }

  /** Each action name parses as its action. */
  lemma ActionNamesParse()
    ensures ActionNamed("NONE") == ActionNone
    ensures ActionNamed("REJECT") == ActionReject
    ensures ActionNamed("UNREJECT") == ActionUnreject
    ensures ActionNamed("LOW_PRIO") == ActionLowPrio
    ensures ActionNamed("HIGH_PRIO") == ActionHighPrio
  {
    SameTextEqual("NONE");
    SameTextEqual("REJECT");
    SameTextEqual("UNREJECT");
    SameTextEqual("LOW_PRIO");
    SameTextEqual("HIGH_PRIO");
    DifferentAt("UNREJECT", "LOW_PRIO", 0);
  }

  /** Parsing a rendered named action gives it back, in strict and in lenient mode. */
  lemma ActionRoundTrip(action: Word, strict: bool)
    requires ActionName(action).Some?
    ensures ActionOf(ActionToStr(action, strict)) == action
  {
    var name := ActionName(action).value;
    assert name[0] != ' ' && !IsSpace(name[0]);
    assert SkipSpace(name) == name;
    ActionNamesParse();
  }

  /** A rendered action without a name (REJECT_ALL among them) never parses back to a valid action. */
  lemma {:induction false} UnnamedActionDoesNotParse(action: Word)
    requires ActionName(action).None?
    ensures ActionOf(ActionToStr(action, false)) == ActionInvalid
  {
    var s := "0x" + Hex(action as nat);
    assert s[0] == '0' && !IsSpace(s[0]);
    assert SkipSpace(s) == s;
    assert FoldCase(s[0]) == '0';
  }

  /** Leading white space does not matter to the action parser. */
  lemma {:induction false} LeadingSpaceIgnored(space: string, text: string)
    requires forall i :: 0 <= i < |space| ==> IsSpace(space[i])
    requires text == [] || !IsSpace(text[0])
    ensures ActionOf(Some(space + text)) == ActionOf(Some(text))
    decreases |space|
  {
    if space == [] {
      assert space + text == text;
    } else {
      assert (space + text)[1..] == space[1..] + text;
      LeadingSpaceIgnored(space[1..], text);
    }
  }

  /** Letter case does not matter to the action parser. */
  lemma CaseIgnored(t: string, u: string)
    requires EqualsNoCase(t, u)
    ensures ActionNamed(t) == ActionNamed(u)
  {
    SameNamesNoCase(t, u, "NONE");
    SameNamesNoCase(t, u, "REJECT");
    SameNamesNoCase(t, u, "UNREJECT");
    SameNamesNoCase(t, u, "LOW_PRIO");
    SameNamesNoCase(t, u, "HIGH_PRIO");
  }

  lemma SameNamesNoCase(t: string, u: string, name: string)
    requires EqualsNoCase(t, u)
    ensures EqualsNoCase(t, name) <==> EqualsNoCase(u, name)
  {
  }

  /** REJECT_ALL has no text form: the parser does not accept its name. */
  lemma RejectAllIsNotParsed()
    ensures ActionOf(Some("REJECT_ALL")) == ActionInvalid
  {
    assert SkipSpace("REJECT_ALL") == "REJECT_ALL";
    DifferentAt("REJECT_ALL", "UNREJECT", 0);
    DifferentAt("REJECT_ALL", "LOW_PRIO", 0);
  }

  // ---------------------------------------------------------------------
  // Hexadecimal
  // ---------------------------------------------------------------------

  function HexDigit(d: nat): (c: char)
    requires d < 16
  {
    if d < 10 then ('0' as int + d) as char else ('a' as int + d - 10) as char
  }

  /** printf's %x: lower-case hexadecimal digits, no leading zeros. */
  function Hex(n: nat): (s: string)
    ensures s != []
    ensures |s| > 1 ==> s[0] != '0'
    decreases n
  {
    if n < 16 then [HexDigit(n)] else Hex(n / 16) + [HexDigit(n % 16)]
  }

  function DigitValue(c: char): nat {
    if '0' <= c <= '9' then c as int - '0' as int
    else if 'a' <= c <= 'f' then c as int - 'a' as int + 10
    else 0
  }

  /** The number a string of hexadecimal digits denotes. */
  function HexValue(s: string): nat {
    if s == [] then 0 else HexValue(s[..|s| - 1]) * 16 + DigitValue(s[|s| - 1])
  }

  /** Reading back the digits printf wrote gives the number. */
  lemma {:induction false} HexRoundTrip(n: nat)
    ensures HexValue(Hex(n)) == n
    decreases n
  {
    if n >= 16 {
      var s := Hex(n);
      assert s[..|s| - 1] == Hex(n / 16);
      HexRoundTrip(n / 16);
    }
  }

  // ---------------------------------------------------------------------
  // Flags and match modes: token lists OR-ed into a word
  // ---------------------------------------------------------------------

  /** The bit a flags token stands for, if it is a flags name. */
  function FlagToken(tok: string): Option<Word> {
    if EqualsNoCase(tok, "NONE") then Some(FlagsNone)
    else if EqualsNoCase(tok, "STOP") then Some(FlagsStop)
    else None
  }

  /** The bit a match-mode token stands for, if it is a match-mode name. */
  function ModeToken(tok: string): Option<Word> {
    if EqualsNoCase(tok, "NONE") then Some(ModeNone)
    else if EqualsNoCase(tok, "EXACT") then Some(ModeExact)
    else if EqualsNoCase(tok, "GLOB") then Some(ModeGlob)
    else if EqualsNoCase(tok, "REGEXP") then Some(ModeRegexp)
    else if EqualsNoCase(tok, "NOCASE") then Some(ModeNoCase)
    else None
  }

  /** Every token is a name the table knows. */
  predicate AllKnown(toks: seq<string>, table: string -> Option<Word>) {
    forall i :: 0 <= i < |toks| ==> table(toks[i]).Some?
  }

  /** The OR of the tokens' bits, in order. */
  function OrOf(toks: seq<string>, table: string -> Option<Word>): Word
    requires AllKnown(toks, table)
  {
    if toks == [] then 0
    else OrOf(toks[..|toks| - 1], table) | table(toks[|toks| - 1]).value
  }

  /**
   * The word str_to_flags and str_to_match_mode store: INVALID for a null
   * buffer, for an unknown token, or for a buffer with no token at all;
   * else the OR of the tokens' bits.
   */
  function WordOf(zBuf: Option<string>, table: string -> Option<Word>): Word {
    if zBuf.None? then 0xFFFF_FFFF
    else
      var toks := Tokens(zBuf.value);
      if toks == [] || !AllKnown(toks, table) then 0xFFFF_FFFF else OrOf(toks, table)
  }

  /** One more known token ORs its bit into the word. */
  lemma OrOfSnoc(toks: seq<string>, i: nat, table: string -> Option<Word>)
    requires i < |toks| && AllKnown(toks[..i], table) && table(toks[i]).Some?
    ensures AllKnown(toks[..i + 1], table)
    ensures OrOf(toks[..i + 1], table) == OrOf(toks[..i], table) | table(toks[i]).value
  {
    assert toks[..i + 1][..i] == toks[..i];
  }

  /** comdb2_ruleset_str_to_flags. */
  method StrToFlags(zBuf: Option<string>) returns (result: Word)
    ensures result == WordOf(zBuf, FlagToken)
  {
    result := FlagsInvalid;
    if zBuf.None? {
      return;
    }
    var toks := Tokens(zBuf.value);
    var flags := FlagsNone;
    var count := 0;
    var i := 0;
    while i < |toks|
      invariant 0 <= i <= |toks| && count == i
      invariant AllKnown(toks[..i], FlagToken)
      invariant flags == OrOf(toks[..i], FlagToken)
    {
      var tok := toks[i];
      if FlagToken(tok).Some? {
        OrOfSnoc(toks, i, FlagToken);
      }
      if EqualsNoCase(tok, "NONE") {
        count := count + 1;
      } else if EqualsNoCase(tok, "STOP") {
        flags := flags | FlagsStop;
        count := count + 1;
      } else {
        return;
      }
      i := i + 1;
    }
    assert toks[..i] == toks;
    if count > 0 {
      result := flags;
    }
  }

  /** comdb2_ruleset_str_to_match_mode. */
  method StrToMatchMode(zBuf: Option<string>) returns (result: Word)
    ensures result == WordOf(zBuf, ModeToken)
  {
    result := ModeInvalid;
    if zBuf.None? {
      return;
    }
    var toks := Tokens(zBuf.value);
    var mode := ModeNone;
    var count := 0;
    var i := 0;
    while i < |toks|
      invariant 0 <= i <= |toks| && count == i
      invariant AllKnown(toks[..i], ModeToken)
      invariant mode == OrOf(toks[..i], ModeToken)
    {
      var tok := toks[i];
      if ModeToken(tok).Some? {
        OrOfSnoc(toks, i, ModeToken);
      }
      if EqualsNoCase(tok, "NONE") {
        count := count + 1;
      } else if EqualsNoCase(tok, "EXACT") {
        mode := mode | ModeExact;
        count := count + 1;
      } else if EqualsNoCase(tok, "GLOB") {
        mode := mode | ModeGlob;
        count := count + 1;
      } else if EqualsNoCase(tok, "REGEXP") {
        mode := mode | ModeRegexp;
        count := count + 1;
      } else if EqualsNoCase(tok, "NOCASE") {
        mode := mode | ModeNoCase;
        count := count + 1;
      } else {
        return;
      }
      i := i + 1;
    }
    assert toks[..i] == toks;
    if count > 0 {
      result := mode;
    }
  }

  /**
   * comdb2_ruleset_flags_to_str: the text written, NONE by name, else " STOP"
   * when STOP is set (PRINT is not rendered); the empty text stands for
   * writing nothing.
   */
  function FlagsToStr(flags: Word): (r: string)
    ensures r == "NONE" <==> flags == FlagsNone
    ensures r == " STOP" <==> flags != FlagsNone && flags & FlagsStop != 0
    ensures r == "" <==> flags != FlagsNone && flags & FlagsStop == 0
  {
    if flags == FlagsNone then "NONE"
    else if flags & FlagsStop != 0 then " STOP"
    else ""
  }

  /** Parsing rendered flags gives them back for NONE and STOP. */
  lemma FlagsNoneRoundTrip()
    ensures WordOf(Some(FlagsToStr(FlagsNone)), FlagToken) == FlagsNone
  {
    TokensOfWord("NONE", "");
    assert "NONE" + "" == "NONE";
    SameTextEqual("NONE");
    assert ["NONE"][..0] == [];
  }

  lemma FlagsStopRoundTrip()
    ensures WordOf(Some(FlagsToStr(FlagsStop)), FlagToken) == FlagsStop
  {
    TokensOfWord("STOP", "");
    assert "STOP" + "" == "STOP";
    assert " STOP"[1..] == "STOP";
    SameTextEqual("STOP");
    DifferentAt("STOP", "NONE", 0);
    assert ["STOP"][..0] == [];
  }

  /** PRINT alone renders as the empty string, which has no token and parses as INVALID. */
  lemma PrintFlagIsLost()
    ensures FlagsToStr(FlagsPrint) == ""
    ensures WordOf(Some(FlagsToStr(FlagsPrint)), FlagToken) == FlagsInvalid
  {
  }

  /** An unknown token, or a text with no token at all, parses as INVALID whatever else it holds. */
  lemma {:induction false} UnknownTokenIsInvalid(s: string, table: string -> Option<Word>, k: nat)
    requires k < |Tokens(s)| && table(Tokens(s)[k]).None?
    ensures WordOf(Some(s), table) == 0xFFFF_FFFF
  {
  }

  lemma NoTokenIsInvalid(s: string, table: string -> Option<Word>)
    requires forall i :: 0 <= i < |s| ==> IsDelim(s[i])
    ensures WordOf(Some(s), table) == 0xFFFF_FFFF
    decreases |s|
  {
    if s != [] {
      NoTokenIsInvalid(s[1..], table);
    }
  }

  /** The names comdb2_ruleset_match_mode_to_str writes for a mode, in its fixed order. */
  function ModeNames(mode: Word): seq<string> {
    NamesFor(mode & ModeExact != 0, mode & ModeGlob != 0, mode & ModeRegexp != 0, mode & ModeNoCase != 0)
  }

  function Optional(present: bool, name: string): seq<string> {
    if present then [name] else []
  }

  function BitIf(present: bool, bit: Word): Word {
    if present then bit else 0
  }

  /**
   * comdb2_ruleset_match_mode_to_str, over `mode` (see README): the text
   * written, NONE by name, else each mode name that is set, preceded by a
   * space, in the order EXACT, GLOB, REGEXP, NOCASE; the empty text stands
   * for writing nothing.
   */
  function MatchModeToStr(mode: Word): (r: string)
    ensures r == "NONE" <==> mode == ModeNone
    ensures mode != ModeNone ==> r == SpaceJoined(ModeNames(mode))
    ensures mode != ModeNone ==> Tokens(r) == ModeNames(mode)
    ensures mode != ModeNone && r != "" ==> r[0] == ' '
    ensures r == "" <==> mode != ModeNone && ModeNames(mode) == []
  {
    if mode == ModeNone then "NONE"
    else
      var ws := ModeNames(mode);
      NamesAreWords(mode & ModeExact != 0, mode & ModeGlob != 0, mode & ModeRegexp != 0, mode & ModeNoCase != 0);
      TokensOfSpaceJoined(ws);
      assert ws != [] ==> SpaceJoined(ws)[0] == ' ';
      SpaceJoined(ws)
  }

  /** The OR of a list of known tokens splits over concatenation. */
  lemma {:induction false} OrOfAppend(a: seq<string>, b: seq<string>, table: string -> Option<Word>)
    requires AllKnown(a, table) && AllKnown(b, table)
    ensures AllKnown(a + b, table)
    ensures OrOf(a + b, table) == OrOf(a, table) | OrOf(b, table)
    decreases |b|
  {
    if b == [] {
      assert a + b == a;
    } else {
      var b' := b[..|b| - 1];
      assert (a + b)[..|a + b| - 1] == a + b';
      OrOfAppend(a, b', table);
      OrOrAssoc(OrOf(a, table), OrOf(b', table), table(b[|b| - 1]).value);
    }
  }

  lemma OrOrAssoc(x: Word, y: Word, z: Word)
    ensures (x | y) | z == x | (y | z)
  {
  }

  lemma {:induction false} OptionalName(present: bool, name: string, bit: Word)
    requires ModeToken(name) == Some(bit)
    ensures AllKnown(Optional(present, name), ModeToken)
    ensures OrOf(Optional(present, name), ModeToken) == BitIf(present, bit)
  {
    if present {
      assert [name][..0] == [];
    }
  }

  /** Each match-mode name parses as its bit. */
  lemma ModeNamesKnown()
    ensures ModeToken("NONE") == Some(ModeNone)
    ensures ModeToken("EXACT") == Some(ModeExact)
    ensures ModeToken("GLOB") == Some(ModeGlob)
    ensures ModeToken("REGEXP") == Some(ModeRegexp)
    ensures ModeToken("NOCASE") == Some(ModeNoCase)
  {
    SameTextEqual("NONE");
    SameTextEqual("EXACT");
    SameTextEqual("GLOB");
    SameTextEqual("REGEXP");
    SameTextEqual("NOCASE");
    DifferentAt("GLOB", "NONE", 0);
    DifferentAt("REGEXP", "NONE", 0);
    DifferentAt("NOCASE", "REGEXP", 0);
  }

  /** The names written for a choice of bits, in the renderer's order. */
  function NamesFor(e: bool, g: bool, r: bool, n: bool): seq<string> {
    Optional(e, "EXACT") + Optional(g, "GLOB") + Optional(r, "REGEXP") + Optional(n, "NOCASE")
  }

  /** Every name written is a word strtok returns whole. */
  lemma NamesAreWords(e: bool, g: bool, r: bool, n: bool)
    ensures forall i :: 0 <= i < |NamesFor(e, g, r, n)| ==> IsWord(NamesFor(e, g, r, n)[i])
  {
    OptionalWord(e, "EXACT");
    OptionalWord(g, "GLOB");
    OptionalWord(r, "REGEXP");
    OptionalWord(n, "NOCASE");
    var ea := Optional(e, "EXACT");
    var ga := Optional(g, "GLOB");
    var ra := Optional(r, "REGEXP");
    var na := Optional(n, "NOCASE");
    WordsAppend(ea, ga);
    WordsAppend(ea + ga, ra);
    WordsAppend(ea + ga + ra, na);
  }

  predicate AllWords(ws: seq<string>) {
    forall i :: 0 <= i < |ws| ==> IsWord(ws[i])
  }

  lemma OptionalWord(present: bool, name: string)
    requires name != [] && forall i :: 0 <= i < |name| ==> 'A' <= name[i] <= 'Z'
    ensures AllWords(Optional(present, name))
  {
  }

  lemma WordsAppend(a: seq<string>, b: seq<string>)
    requires AllWords(a) && AllWords(b)
    ensures AllWords(a + b)
  {
    forall i | 0 <= i < |a + b| ensures IsWord((a + b)[i]) {
      if i < |a| { assert (a + b)[i] == a[i]; } else { assert (a + b)[i] == b[i - |a|]; }
    }
  }

  /** The names written for a choice of bits are known mode tokens that OR back to those bits. */
  lemma {:induction false} NamesParse(e: bool, g: bool, r: bool, n: bool)
    ensures AllKnown(NamesFor(e, g, r, n), ModeToken)
    ensures OrOf(NamesFor(e, g, r, n), ModeToken) ==
              ((BitIf(e, ModeExact) | BitIf(g, ModeGlob)) | BitIf(r, ModeRegexp)) | BitIf(n, ModeNoCase)
  {
    ModeNamesKnown();
    var ea := Optional(e, "EXACT");
    var ga := Optional(g, "GLOB");
    var ra := Optional(r, "REGEXP");
    var na := Optional(n, "NOCASE");
    assert AllKnown(ea + ga, ModeToken) && OrOf(ea + ga, ModeToken) == BitIf(e, ModeExact) | BitIf(g, ModeGlob) by {
      OptionalName(e, "EXACT", ModeExact);
      OptionalName(g, "GLOB", ModeGlob);
      OrOfAppend(ea, ga, ModeToken);
    }
    assert AllKnown(ea + ga + ra, ModeToken)
           && OrOf(ea + ga + ra, ModeToken) == (BitIf(e, ModeExact) | BitIf(g, ModeGlob)) | BitIf(r, ModeRegexp) by {
      OptionalName(r, "REGEXP", ModeRegexp);
      OrOfAppend(ea + ga, ra, ModeToken);
    }
    OptionalName(n, "NOCASE", ModeNoCase);
    OrOfAppend(ea + ga + ra, na, ModeToken);
  }

  /** Parsing a rendered match mode built from the four mode bits gives it back. */
  lemma {:induction false} MatchModeRoundTrip(mode: Word)
    requires mode & !(ModeExact | ModeGlob | ModeRegexp | ModeNoCase) == 0
    ensures WordOf(Some(MatchModeToStr(mode)), ModeToken) == mode
  {
    if mode == ModeNone {
      NoneModeRoundTrip();
    } else {
      var ws := ModeNames(mode);
      assert Tokens(MatchModeToStr(mode)) == ws by {
        NamesAreWords(mode & ModeExact != 0, mode & ModeGlob != 0, mode & ModeRegexp != 0, mode & ModeNoCase != 0);
        TokensOfSpaceJoined(ws);
      }
      assert AllKnown(ws, ModeToken) && OrOf(ws, ModeToken) == mode by {
        NamesParse(mode & ModeExact != 0, mode & ModeGlob != 0, mode & ModeRegexp != 0, mode & ModeNoCase != 0);
        ModeBitsRecombine(mode);
      }
      ModeBitsRecombine(mode);
    }
  }

  lemma NoneModeRoundTrip()
    ensures WordOf(Some(MatchModeToStr(ModeNone)), ModeToken) == ModeNone
  {
    TokensOfWord("NONE", "");
    assert "NONE" + "" == "NONE";
    ModeNamesKnown();
    assert ["NONE"][..0] == [];
  }

  /** A word of the four mode bits is the OR of the bits it has. */
  lemma ModeBitsRecombine(mode: Word)
    requires mode & !(ModeExact | ModeGlob | ModeRegexp | ModeNoCase) == 0
    ensures mode != ModeNone ==> ModeNames(mode) != []
    ensures ((BitIf(mode & ModeExact != 0, ModeExact) | BitIf(mode & ModeGlob != 0, ModeGlob))
              | BitIf(mode & ModeRegexp != 0, ModeRegexp)) | BitIf(mode & ModeNoCase != 0, ModeNoCase) == mode
  {
  }

  // ---------------------------------------------------------------------
  // Priorities
  // ---------------------------------------------------------------------

  /** The name comdb2_priority_to_str gives a priority, if it is one of the six sentinels. */
  function PriorityName(pc: PriorityConstants, p: int): Option<string> {
    if p == pc.invalid then Some("INVALID")
    else if p == pc.highest then Some("HIGHEST")
    else if p == pc.lowest then Some("LOWEST")
    else if p == pc.head then Some("HEAD")
    else if p == pc.tail then Some("TAIL")
    else if p == pc.defaultPriority then Some("DEFAULT")
    else None
  }

  /** 2^64: priority_t is printed with %llx, as an unsigned 64-bit value. */
  const TwoTo64: nat := 0x1_0000_0000_0000_0000

  /**
   * comdb2_priority_to_str: the sentinel's name; for any other priority
   * nothing when strict, else "0x" and the value as unsigned 64-bit hex.
   * The source asserts the priority is in range.
   */
  function PriorityToStr(pc: PriorityConstants, p: int, strict: bool): (r: Option<string>)
    requires pc.Valid() && pc.InRange(p)
    ensures PriorityName(pc, p).Some? ==> r == PriorityName(pc, p)
    ensures PriorityName(pc, p).None? ==> (r.None? <==> strict)
    ensures PriorityName(pc, p).None? && !strict ==> r == Some("0x" + Hex(p % TwoTo64))
  {
    if PriorityName(pc, p).Some? then PriorityName(pc, p)
    else if strict then None
    else Some("0x" + Hex(p % TwoTo64))
  }

  /** The ends of the range render as HIGHEST and LOWEST whatever the strictness. */
  lemma PriorityEnds(pc: PriorityConstants, strict: bool)
    requires pc.Valid()
    ensures PriorityToStr(pc, pc.highest, strict) == Some("HIGHEST")
    ensures PriorityToStr(pc, pc.lowest, strict) == Some("LOWEST")
  {
  }

  /** A priority without a name renders as hex digits that read back as its unsigned 64-bit value. */
  lemma PriorityHexReadsBack(pc: PriorityConstants, p: int)
    requires pc.Valid() && pc.InRange(p) && PriorityName(pc, p).None?
    ensures var s := PriorityToStr(pc, p, false).value;
            s[..2] == "0x" && HexValue(s[2..]) == p % TwoTo64
  {
    var s := PriorityToStr(pc, p, false).value;
    assert s[2..] == Hex(p % TwoTo64);
    HexRoundTrip(p % TwoTo64);
  }
}
