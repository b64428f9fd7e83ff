/**
 * The quick compliance gate `check_task(task_text, jurisdiction)`: three fixed
 * hard checks decide the verdict, and the list of violations is the codes of
 * the checks that fired followed by a "Violates: <rule>" line for every hard
 * rule the keyword heuristic finds in the task.
 */
module Compliance {
  import opened AsciiText
  import opened Keywords
  import opened Rules

  // ----- The destructive-command pattern -----

  /**
   * The alternatives of `\b(rm -rf|dd if=|format|cipher /w|shutdown /r)\b`,
   * matched without regard to case.
   */
  const DESTRUCTIVE_PHRASES: seq<string> := ["rm -rf", "dd if=", "format", "cipher /w", "shutdown /r"]

  /** `\b` at position `k`: a word character on exactly one side of it. */
  predicate WordBoundary(t: string, k: int)
    requires 0 <= k <= |t|
  {
    (k > 0 && IsWordChar(t[k - 1])) != (k < |t| && IsWordChar(t[k]))
  }

  /** The phrase occurs at `i`, ignoring case, with `\b` before and after it. */
  predicate PhraseAt(t: string, i: int, phrase: string) {
    && 0 <= i && i + |phrase| <= |t|
    && Lower(t[i..i + |phrase|]) == Lower(phrase)
    && WordBoundary(t, i)
    && WordBoundary(t, i + |phrase|)
  }

  /** `_DESTRUCTIVE_PATTERNS.search(t)` finds a match. */
  predicate Destructive(t: string) {
    exists i, phrase | 0 <= i <= |t| && phrase in DESTRUCTIVE_PHRASES :: PhraseAt(t, i, phrase)
  }

  /** Every alternative starts with a word character, so a match starts a word. */
  lemma MatchStartsAWord(t: string, i: int, phrase: string)
    requires phrase in DESTRUCTIVE_PHRASES && PhraseAt(t, i, phrase)
    ensures i == 0 || !IsWordChar(t[i - 1])
  {
    assert LowerChar(t[i]) == Lower(t[i..i + |phrase|])[0] == Lower(phrase)[0];
  }

  /** Every alternative except `format` holds a non-word character, at index `k`. */
  lemma AlternativeHasGap(phrase: string) returns (k: nat)
    requires phrase in DESTRUCTIVE_PHRASES && phrase != "format"
    ensures k < |phrase| && !IsWordChar(phrase[k])
  {
    k := if phrase == "rm -rf" || phrase == "dd if=" then 2 else if phrase == "cipher /w" then 6 else 8;
  }

  /**
   * A text that is one run of word characters is flagged exactly when it is
   * `format` in some case: `FORMAT` is flagged, `reformat` and `formatting`
   * are not.
   */
  lemma {:induction false} SingleWordFlaggedIffFormat(t: string)
    requires forall k :: 0 <= k < |t| ==> IsWordChar(t[k])
    ensures Destructive(t) <==> Lower(t) == "format"
  {
    if Destructive(t) {
      var i, phrase :| 0 <= i <= |t| && phrase in DESTRUCTIVE_PHRASES && PhraseAt(t, i, phrase);
      MatchStartsAWord(t, i, phrase);
      if phrase != "format" {
        var k := AlternativeHasGap(phrase);
        assert false;
      }
      assert i == 0 && |t| == 6;
      assert t[0..6] == t;
    }
    if Lower(t) == "format" {
      assert t[0..6] == t;
      assert PhraseAt(t, 0, "format");
    }
  }

  /**
   * A match begins with the first two characters of its alternative, in some
   * case; only `dd if=` begins with `dd`.
   */
  lemma PhraseHead(t: string, i: int, phrase: string)
    requires phrase in DESTRUCTIVE_PHRASES && PhraseAt(t, i, phrase)
    ensures i + 5 <= |t|
    ensures [LowerChar(t[i]), LowerChar(t[i + 1])] == phrase[..2]
    ensures phrase[..2] in ["rm", "dd", "fo", "ci", "sh"]
    ensures phrase[..2] == "dd" ==> phrase == "dd if="
  {
    assert LowerChar(t[i]) == Lower(t[i..i + |phrase|])[0] == Lower(phrase)[0];
    assert LowerChar(t[i + 1]) == Lower(t[i..i + |phrase|])[1] == Lower(phrase)[1];
  }

  /**
   * `=` is not a word character, so the `\b` after `dd if=` needs a word
   * character right after the `=`.
   */
  lemma DdIfNeedsWordAfter(t: string, i: int)
    requires PhraseAt(t, i, "dd if=")
    ensures i + 6 < |t| && IsWordChar(t[i + 6])
  {
    assert LowerChar(t[i + 5]) == Lower(t[i..i + 6])[5] == Lower("dd if=")[5] == '=';
  }

  /** Matches found with and without regard to case, as `re.I` does. */
  lemma FlaggedExamples()
    ensures Destructive("FORMAT c:")
    ensures Destructive("dd if=disk.img")
  {
    assert PhraseAt("FORMAT c:", 0, "format");
    assert PhraseAt("dd if=disk.img", 0, "dd if=");
  }

  /** Occurrences inside a word are not matches, nor is `dd if=` followed by a `/`. */
  lemma UnflaggedExamples()
    ensures !Destructive("reformat")
    ensures !Destructive("formatting")
    ensures !Destructive("dd if=/dev/zero of=/dev/sda")
  {
    SingleWordFlaggedIffFormat("reformat");
    SingleWordFlaggedIffFormat("formatting");
    DdIfDeviceNotFlagged();
  }

  /** Helpers for `UnflaggedExamples`: no alternative matches anywhere in a `dd if=/...` text. */
  lemma DdIfDeviceNotFlagged()
    ensures !Destructive("dd if=/dev/zero of=/dev/sda")
  {
    var t := "dd if=/dev/zero of=/dev/sda";
    DdIfDevicePairs(t);
    forall i, phrase | 0 <= i <= |t| && phrase in DESTRUCTIVE_PHRASES
      ensures !PhraseAt(t, i, phrase)
    {
      if PhraseAt(t, i, phrase) {
        PhraseHead(t, i, phrase);
        if i == 0 {
          DdIfNeedsWordAfter(t, i);
        }
      }
    }
  }

  /** Past its start, no two adjacent characters of the text begin an alternative. */
  lemma DdIfDevicePairs(t: string)
    requires t == "dd if=/dev/zero of=/dev/sda"
    ensures !IsWordChar(t[6]) && [LowerChar(t[0]), LowerChar(t[1])] == "dd"
    ensures forall i :: 0 < i < |t| - 1 ==>
      [LowerChar(t[i]), LowerChar(t[i + 1])] !in ["rm", "dd", "fo", "ci", "sh"]
  {
  }

  /** The destructive pattern ignores case. */
  lemma DestructiveIgnoresCase(t: string)
    ensures Destructive(Lower(t)) == Destructive(t)
  {
    var lowered := Lower(t);
    forall i, phrase | 0 <= i <= |t| && phrase in DESTRUCTIVE_PHRASES
      ensures PhraseAt(lowered, i, phrase) == PhraseAt(t, i, phrase)
    {
      if i + |phrase| <= |t| {
        LowerSlice(t, i, i + |phrase|);
        LowerIdempotent(t[i..i + |phrase|]);
      }
    }
  }

  // ----- The three hard checks -----

  datatype HardCheck = DestructiveCommand | OutOfScopeAssets | PossibleExfil {
    /** The code `check_task` reports when this check fires. */
    function Code(): string {
      match this
      case DestructiveCommand => "destructive_command"
      case OutOfScopeAssets => "out_of_scope_assets"
      case PossibleExfil => "possible_exfil"
    }

    /** Position of the check in the order `check_task` runs them. */
    function Rank(): nat {
      match this
      case DestructiveCommand => 0
      case OutOfScopeAssets => 1
      case PossibleExfil => 2
    }
  }

  /** Whether a hard check fires on the task text. */
  predicate Fires(check: HardCheck, t: string) {
    match check
    case DestructiveCommand => Destructive(t)
    case OutOfScopeAssets => Contains(Lower(t), "live_production")
    case PossibleExfil => Contains(Lower(t), "exfil") && !Contains(Lower(t), "encrypt")
  }

  /** The hard checks in the order `check_task` runs them. */
  const CHECK_ORDER: seq<HardCheck> := [DestructiveCommand, OutOfScopeAssets, PossibleExfil]

  /** The checks of `checks` that fire on `t`, in the order given. */
  function Fired(checks: seq<HardCheck>, t: string): (fired: seq<HardCheck>)
    ensures |fired| <= |checks|
    ensures forall c :: c in fired <==> c in checks && Fires(c, t)
    decreases |checks|
  {
    if checks == [] then []
    else (if Fires(checks[0], t) then [checks[0]] else []) + Fired(checks[1..], t)
  }

  /** The codes of a list of checks. */
  function Codes(checks: seq<HardCheck>): (codes: seq<string>)
    ensures |codes| == |checks|
    ensures forall k :: 0 <= k < |checks| ==> codes[k] == checks[k].Code()
  {
    seq(|checks|, k requires 0 <= k < |checks| => checks[k].Code())
  }

  /** Concatenation regroups; a helper for `FiredThree`, where the pieces are conditional lists. */
  lemma AppendAssociates<T>(a: seq<T>, b: seq<T>, c: seq<T>)
    ensures a + (b + c) == a + b + c
  {
  }

  /** Running three checks in order: each is kept exactly when it fires. */
  lemma FiredThree(first: HardCheck, second: HardCheck, third: HardCheck, t: string)
    ensures Fired([first, second, third], t) ==
      (if Fires(first, t) then [first] else [])
      + (if Fires(second, t) then [second] else [])
      + (if Fires(third, t) then [third] else [])
  {
    var a := if Fires(first, t) then [first] else [];
    var b := if Fires(second, t) then [second] else [];
    var c := if Fires(third, t) then [third] else [];
    assert [first, second, third][1..] == [second, third];
    assert [second, third][1..] == [third];
    assert [third][1..] == [];
    assert Fired([third], t) == c + [];
    assert Fired([second, third], t) == b + c;
    assert Fired([first, second, third], t) == a + (b + c);
    AppendAssociates(a, b, c);
  }

  /** The codes of two lists of checks one after the other. */
  lemma CodesAppend(left: seq<HardCheck>, right: seq<HardCheck>)
    ensures Codes(left + right) == Codes(left) + Codes(right)
  {
    assert forall k :: 0 <= k < |left + right| ==> (left + right)[k] == if k < |left| then left[k] else right[k - |left|];
  }

  /** The code of a check, as a one-element list when the check fires. */
  function CodeIfFires(check: HardCheck, t: string): (codes: seq<string>)
    ensures codes == Codes(if Fires(check, t) then [check] else [])
  {
    if Fires(check, t) then [check.Code()] else []
  }

  /** Appending the code of each check that fires, in the order run, lists the codes of the fired checks. */
  lemma AppendedInOrder(t: string, codes: seq<string>)
    requires codes ==
      CodeIfFires(DestructiveCommand, t) + CodeIfFires(OutOfScopeAssets, t) + CodeIfFires(PossibleExfil, t)
    ensures codes == HardFindings(t)
  {
    var a := if Fires(DestructiveCommand, t) then [DestructiveCommand] else [];
    var b := if Fires(OutOfScopeAssets, t) then [OutOfScopeAssets] else [];
    var c := if Fires(PossibleExfil, t) then [PossibleExfil] else [];
    FiredThree(DestructiveCommand, OutOfScopeAssets, PossibleExfil, t);
    CodesAppend(a + b, c);
    CodesAppend(a, b);
  }

  /** The hard-check part of the violation list. */
  function HardFindings(t: string): seq<string> {
    Codes(Fired(CHECK_ORDER, t))
  }

  // ----- The verbose part -----

  const VIOLATES_PREFIX: string := "Violates: "

  /** The line starts with "Violates: ". */
  predicate IsVerbose(line: string) {
    |VIOLATES_PREFIX| <= |line| && line[..|VIOLATES_PREFIX|] == VIOLATES_PREFIX
  }

  /** `[f"Violates: {rule}" for rule in rules if keyword_hit(rule, t)]`. */
  function VerboseViolations(rules: seq<string>, t: string): (lines: seq<string>)
    ensures |lines| <= |rules|
    ensures forall k :: 0 <= k < |lines| ==> IsVerbose(lines[k])
    decreases |rules|
  {
    if rules == [] then []
    else
      (if HasKeyword(rules[0], t) then [VIOLATES_PREFIX + rules[0]] else [])
      + VerboseViolations(rules[1..], t)
  }

  /** The indices, from `k` on, of the rules the heuristic finds in `t`, ascending. */
  ghost function HitIndices(rules: seq<string>, t: string, k: nat): (ks: seq<nat>)
    requires k <= |rules|
    ensures forall m :: 0 <= m < |ks| ==> k <= ks[m] < |rules|
    ensures forall m, n :: 0 <= m < n < |ks| ==> ks[m] < ks[n]
    ensures forall j :: j in ks <==> k <= j < |rules| && HasKeyword(rules[j], t)
    decreases |rules| - k
  {
    if k == |rules| then []
    else (if HasKeyword(rules[k], t) then [k] else []) + HitIndices(rules, t, k + 1)
  }

  /** The verbose lines of `rules[k..]` are the prefixed rules at the hit indices, in order. */
  lemma {:induction false} VerboseViolationsFrom(rules: seq<string>, t: string, k: nat)
    requires k <= |rules|
    ensures var lines, ks := VerboseViolations(rules[k..], t), HitIndices(rules, t, k);
      |lines| == |ks| && forall m :: 0 <= m < |ks| ==> lines[m] == VIOLATES_PREFIX + rules[ks[m]]
    decreases |rules| - k
  {
    if k < |rules| {
      assert rules[k..][1..] == rules[k + 1..];
      VerboseViolationsFrom(rules, t, k + 1);
    }
  }

  /**
   * The verbose lines are exactly "Violates: " + rule for every rule the
   * heuristic finds in the task, in the order of the rule list.
   */
  lemma VerboseViolationsSelect(rules: seq<string>, t: string)
    ensures var lines, ks := VerboseViolations(rules, t), HitIndices(rules, t, 0);
      && |lines| == |ks|
      && (forall m :: 0 <= m < |ks| ==> lines[m] == VIOLATES_PREFIX + rules[ks[m]])
      && (forall m, n :: 0 <= m < n < |ks| ==> ks[m] < ks[n])
      && (forall j :: j in ks <==> 0 <= j < |rules| && HasKeyword(rules[j], t))
  {
    VerboseViolationsFrom(rules, t, 0);
    assert rules[0..] == rules;
  }

  // ----- The gate -----

  /**
   * The hard-check half of `check_task`: run the three checks in order,
   * appending the code of each one that fires.
   */
  method HardChecks(taskText: string) returns (hard: seq<string>)
    ensures hard == HardFindings(taskText)
  {
    hard := [];
    if Destructive(taskText) {
      hard := hard + [DestructiveCommand.Code()];
    }
    assert hard == CodeIfFires(DestructiveCommand, taskText);
    if Contains(Lower(taskText), "live_production") {
      hard := hard + [OutOfScopeAssets.Code()];
    }
    assert hard == CodeIfFires(DestructiveCommand, taskText) + CodeIfFires(OutOfScopeAssets, taskText);
    if Contains(Lower(taskText), "exfil") && !Contains(Lower(taskText), "encrypt") {
      hard := hard + [PossibleExfil.Code()];
    }
    AppendedInOrder(taskText, hard);
  }

  /**
   * `check_task(task_text, jurisdiction)`: the codes of the hard checks that
   * fire, then the verbose lines. The task is compliant exactly when no hard
   * check fired.
   */
  method CheckTask(taskText: string, jurisdiction: string) returns (compliant: bool, violations: seq<string>)
    ensures compliant <==> forall c :: !Fires(c, taskText)
    ensures violations == HardFindings(taskText) + VerboseViolations(HARD_RULES, taskText)
  {
    var hard := HardChecks(taskText);
    var verbose := VerboseViolations(HARD_RULES, taskText);
    HardFindingsMembership(taskText);
    compliant := |hard| == 0;
    violations := hard + verbose;
  }

  /** The verdict and the list depend on the task text only, never on the jurisdiction. */
  method CheckTaskIgnoresJurisdiction(taskText: string, one: string, other: string)
    returns (sameVerdict: bool, sameViolations: bool)
    ensures sameVerdict && sameViolations
  {
    var c1, v1 := CheckTask(taskText, one);
    var c2, v2 := CheckTask(taskText, other);
    sameVerdict := c1 == c2;
    sameViolations := v1 == v2;
  }

  // ----- Properties of the violation list -----

  /** Distinct checks have distinct codes, so a code is listed exactly when its check is. */
  lemma CodesMember(checks: seq<HardCheck>, c: HardCheck)
    ensures c.Code() in Codes(checks) <==> c in checks
  {
    if c.Code() in Codes(checks) {
      var k :| 0 <= k < |checks| && Codes(checks)[k] == c.Code();
      assert checks[k].Code() == c.Code();
    }
    if c in checks {
      var k :| 0 <= k < |checks| && checks[k] == c;
      assert Codes(checks)[k] == c.Code();
    }
  }

  /** A hard-check code is among the findings exactly when its check fires. */
  lemma HardFindingsMembership(t: string)
    ensures forall c: HardCheck :: c.Code() in HardFindings(t) <==> Fires(c, t)
    ensures HardFindings(t) == [] <==> forall c :: !Fires(c, t)
  {
    FiredThree(DestructiveCommand, OutOfScopeAssets, PossibleExfil, t);
    forall c: HardCheck
      ensures c.Code() in HardFindings(t) <==> Fires(c, t)
    {
      CodesMember(Fired(CHECK_ORDER, t), c);
      assert c in CHECK_ORDER;
    }
  }

  /** The fired checks come in the fixed order, each at most once. */
  lemma HardFindingsOrdered(t: string)
    ensures |HardFindings(t)| <= |CHECK_ORDER|
    ensures forall m, n :: 0 <= m < n < |Fired(CHECK_ORDER, t)| ==>
      Fired(CHECK_ORDER, t)[m].Rank() < Fired(CHECK_ORDER, t)[n].Rank()
  {
    FiredThree(DestructiveCommand, OutOfScopeAssets, PossibleExfil, t);
  }

  /** The text "file" hits the scope rule through its last keyword. */
  lemma FileHitsScopeRule()
    ensures HasKeyword(HARD_RULES[1], "file")
  {
    var rule := HARD_RULES[1];
    assert rule[73..77] == "file";
    assert IsKeywordAt(rule, 73, 77);
    assert Lower(rule[73..77]) == "file" == Lower("file");
    ContainsSelf("file");
  }

  /** No hard check fires on the text "file". */
  lemma FileFiresNothing()
    ensures forall c :: !Fires(c, "file")
  {
    SingleWordFlaggedIffFormat("file");
  }

  /**
   * The verbose lines never affect the verdict: the task "file" is compliant,
   * yet its list names the scope rule.
   */
  lemma CompliantYetListed()
    ensures forall c :: !Fires(c, "file")
    ensures VIOLATES_PREFIX + HARD_RULES[1] in VerboseViolations(HARD_RULES, "file")
  {
    FileFiresNothing();
    FileHitsScopeRule();
    VerboseViolationsSelect(HARD_RULES, "file");
    var ks := HitIndices(HARD_RULES, "file", 0);
    var m :| 0 <= m < |ks| && ks[m] == 1;
    assert VerboseViolations(HARD_RULES, "file")[m] == VIOLATES_PREFIX + HARD_RULES[1];
  }

  /** No verbose line can be mistaken for a hard-check code. */
  lemma CodesAreNotVerbose(c: HardCheck, t: string)
    ensures c.Code() !in VerboseViolations(HARD_RULES, t)
  {
    assert !IsVerbose(c.Code()) by {
      assert c.Code()[0] != VIOLATES_PREFIX[0];
    }
  }

  /**
   * The whole list `check_task` returns: a hard-check code is in it exactly
   * when that check fires, the hard-check codes come first, and there are at
   * most 3 + |HARD_RULES| = 9 entries.
   */
  lemma ViolationListShape(t: string)
    ensures var all := HardFindings(t) + VerboseViolations(HARD_RULES, t);
      && |all| <= |CHECK_ORDER| + |HARD_RULES| == 9
      && (forall c: HardCheck :: c.Code() in all <==> Fires(c, t))
      && (forall k :: 0 <= k < |all| ==> (k < |HardFindings(t)| <==> all[k] !in VerboseViolations(HARD_RULES, t)))
  {
    var all := HardFindings(t) + VerboseViolations(HARD_RULES, t);
    HardFindingsMembership(t);
    HardFindingsOrdered(t);
    forall c: HardCheck
      ensures c.Code() in all <==> Fires(c, t)
    {
      CodesAreNotVerbose(c, t);
    }
    forall k | 0 <= k < |all|
      ensures k < |HardFindings(t)| <==> all[k] !in VerboseViolations(HARD_RULES, t)
    {
      if k < |HardFindings(t)| {
        var fired := Fired(CHECK_ORDER, t);
        CodesAreNotVerbose(fired[k], t);
      }
    }
  }

  /** Each code, spelled out, is in the list exactly when its own test holds. */
  lemma CodesPresentIff(t: string)
    ensures var all := HardFindings(t) + VerboseViolations(HARD_RULES, t);
      && ("destructive_command" in all <==> Destructive(t))
      && ("out_of_scope_assets" in all <==> Contains(Lower(t), "live_production"))
      && ("possible_exfil" in all <==> Contains(Lower(t), "exfil") && !Contains(Lower(t), "encrypt"))
  {
    ViolationListShape(t);
    assert DestructiveCommand.Code() == "destructive_command";
    assert OutOfScopeAssets.Code() == "out_of_scope_assets";
    assert PossibleExfil.Code() == "possible_exfil";
    assert Fires(DestructiveCommand, t) == Destructive(t);
    assert Fires(OutOfScopeAssets, t) == Contains(Lower(t), "live_production");
  }
}
