/**
 * `constitution_prompt_block()`: the fragment prepended to every agent's
 * system prompt. The current date is read from the clock in the original;
 * here it is a parameter, already formatted.
 */
module PromptBlock {
  import opened Rules
  import opened TextLines

  const HARD_HEADING: string := "**HARD RULES (non-negotiable):**"
  const CORE_HEADING: string := "**Pentest Ethics (must meet unless overridden by user):**"
  const CLOSING: string := "Always ensure your actions comply."

  /** The title line, stamped with the date. */
  function Title(date: string): string {
    "### AATIS Constitution (extract \U{2013} " + date + ")"
  }

  /** `f"- {r}" for r in rules`. */
  function Bullets(rules: seq<string>): (lines: seq<string>)
    ensures |lines| == |rules|
    ensures forall k :: 0 <= k < |rules| ==> lines[k] == "- " + rules[k]
  {
    seq(|rules|, k requires 0 <= k < |rules| => "- " + rules[k])
  }

  /**
   * The shape of the block: a title line, a heading over the hard section,
   * an empty line, a heading over the pentest section, and a closing line,
   * with a newline after the last line as well.
   */
  function Layout(title: string, hardHeading: string, hard: string,
                  coreHeading: string, core: string, closing: string): string {
    title + "\n"
    + hardHeading + "\n" + hard + "\n\n"
    + coreHeading + "\n" + core + "\n"
    + closing + "\n"
  }

  /** The block for the given date over any hard-rule and pentest-rule lists. */
  function BlockOver(date: string, hardRules: seq<string>, coreRules: seq<string>): string {
    Layout(Title(date), HARD_HEADING, Join(Bullets(hardRules)),
           CORE_HEADING, Join(Bullets(coreRules)), CLOSING)
  }

  /** `constitution_prompt_block()`, with the date passed in. */
  function ConstitutionPromptBlock(date: string): string {
    BlockOver(date, HARD_RULES, CORE_PENTEST_RULES)
  }

  /** Where the hard-rule bullets start: after the title line and the heading line. */
  function HardSectionStart(date: string): nat {
    |Title(date)| + 1 + |HARD_HEADING| + 1
  }

  /** Where the pentest-rule bullets start: after the hard bullets, an empty line and the heading line. */
  function CoreSectionStart(date: string, hardRules: seq<string>): nat {
    HardSectionStart(date) + |Join(Bullets(hardRules))| + 2 + |CORE_HEADING| + 1
  }

  /** The title, both headings and the closing line stand as whole lines of the layout. */
  lemma LayoutFixedLines(title: string, hardHeading: string, hard: string,
                         coreHeading: string, core: string, closing: string)
    ensures var text := Layout(title, hardHeading, hard, coreHeading, core, closing);
      && IsLineAt(text, title, 0)
      && IsLineAt(text, hardHeading, |title| + 1)
      && IsLineAt(text, coreHeading, |title| + 1 + |hardHeading| + 1 + |hard| + 2)
      && IsLineAt(text, closing, |text| - |closing| - 1)
  {
    var text := Layout(title, hardHeading, hard, coreHeading, core, closing);
    var h := |title| + 1;
    var c := h + |hardHeading| + 1 + |hard| + 2;
    assert text[0..|title|] == title;
    assert text[h..h + |hardHeading|] == hardHeading;
    assert text[c..c + |coreHeading|] == coreHeading;
    assert text[|text| - |closing| - 1..|text| - 1] == closing;
  }

  /** A line of the hard section stands as a whole line of the layout, shifted past the title and heading. */
  lemma LayoutPlacesHard(title: string, hardHeading: string, hard: string,
                         coreHeading: string, core: string, closing: string, line: string, p: int, at: int)
    requires IsLineAt(hard, line, p)
    requires at == |title| + 1 + |hardHeading| + 1 + p
    ensures IsLineAt(Layout(title, hardHeading, hard, coreHeading, core, closing), line, at)
  {
    var before := title + "\n" + hardHeading + "\n";
    var after := "\n\n" + coreHeading + "\n" + core + "\n" + closing + "\n";
    assert Layout(title, hardHeading, hard, coreHeading, core, closing) == before + hard + after;
    LineInContext(before, hard, after, line, p);
  }

  /** A line of the pentest section stands as a whole line of the layout, shifted past everything before it. */
  lemma LayoutPlacesCore(title: string, hardHeading: string, hard: string,
                         coreHeading: string, core: string, closing: string, line: string, p: int, at: int)
    requires IsLineAt(core, line, p)
    requires at == |title| + 1 + |hardHeading| + 1 + |hard| + 2 + |coreHeading| + 1 + p
    ensures IsLineAt(Layout(title, hardHeading, hard, coreHeading, core, closing), line, at)
  {
    var before := title + "\n" + hardHeading + "\n" + hard + "\n\n" + coreHeading + "\n";
    var after := "\n" + closing + "\n";
    assert Layout(title, hardHeading, hard, coreHeading, core, closing) == before + core + after;
    LineInContext(before, core, after, line, p);
  }

  /** Every bullet of a rule list stands at its offset as a whole line of the joined list. */
  lemma BulletsPlaced(rules: seq<string>, k: nat)
    requires k < |rules|
    ensures IsLineAt(Join(Bullets(rules)), Bullets(rules)[k], LineStart(Bullets(rules), k))
  {
    JoinPlacesLines(Bullets(rules), k);
  }

  /** The k-th hard rule stands in the block as the whole line "- " + rule, in the hard section. */
  predicate HardBulletShown(date: string, hardRules: seq<string>, coreRules: seq<string>, k: nat)
    requires k < |hardRules|
  {
    IsLineAt(BlockOver(date, hardRules, coreRules), "- " + hardRules[k],
             HardSectionStart(date) + LineStart(Bullets(hardRules), k))
  }

  /** The k-th pentest rule stands in the block as the whole line "- " + rule, in the pentest section. */
  predicate CoreBulletShown(date: string, hardRules: seq<string>, coreRules: seq<string>, k: nat)
    requires k < |coreRules|
  {
    IsLineAt(BlockOver(date, hardRules, coreRules), "- " + coreRules[k],
             CoreSectionStart(date, hardRules) + LineStart(Bullets(coreRules), k))
  }

  /** The title, both headings and the closing line are whole lines of the block. */
  lemma PromptBlockFrame(date: string, hardRules: seq<string>, coreRules: seq<string>)
    ensures var block := BlockOver(date, hardRules, coreRules);
      && IsLineAt(block, Title(date), 0)
      && IsLineAt(block, HARD_HEADING, |Title(date)| + 1)
      && IsLineAt(block, CORE_HEADING, CoreSectionStart(date, hardRules) - |CORE_HEADING| - 1)
      && IsLineAt(block, CLOSING, |block| - |CLOSING| - 1)
  {
    LayoutFixedLines(Title(date), HARD_HEADING, Join(Bullets(hardRules)),
                     CORE_HEADING, Join(Bullets(coreRules)), CLOSING);
  }

  /** Every hard rule is shown as a bullet line. */
  lemma PromptBlockHardBullets(date: string, hardRules: seq<string>, coreRules: seq<string>, k: nat)
    requires k < |hardRules|
    ensures HardBulletShown(date, hardRules, coreRules, k)
  {
    var bullets := Bullets(hardRules);
    BulletsPlaced(hardRules, k);
    LayoutPlacesHard(Title(date), HARD_HEADING, Join(bullets), CORE_HEADING, Join(Bullets(coreRules)), CLOSING,
                     bullets[k], LineStart(bullets, k), HardSectionStart(date) + LineStart(bullets, k));
  }

  /** Every pentest rule is shown as a bullet line. */
  lemma PromptBlockCoreBullets(date: string, hardRules: seq<string>, coreRules: seq<string>, k: nat)
    requires k < |coreRules|
    ensures CoreBulletShown(date, hardRules, coreRules, k)
  {
    var bullets := Bullets(coreRules);
    BulletsPlaced(coreRules, k);
    LayoutPlacesCore(Title(date), HARD_HEADING, Join(Bullets(hardRules)), CORE_HEADING, Join(bullets), CLOSING,
                     bullets[k], LineStart(bullets, k), CoreSectionStart(date, hardRules) + LineStart(bullets, k));
  }

  /**
   * The bullets keep list order, and every hard-rule bullet ends before the
   * first pentest-rule bullet starts.
   */
  lemma PromptBlockOrder(date: string, hardRules: seq<string>, coreRules: seq<string>)
    ensures forall j, k :: 0 <= j < k < |hardRules| ==>
      LineStart(Bullets(hardRules), j) < LineStart(Bullets(hardRules), k)
    ensures forall j, k :: 0 <= j < k < |coreRules| ==>
      LineStart(Bullets(coreRules), j) < LineStart(Bullets(coreRules), k)
    ensures forall k :: 0 <= k < |hardRules| ==>
      HardSectionStart(date) + LineStart(Bullets(hardRules), k) + |"- " + hardRules[k]| < CoreSectionStart(date, hardRules)
  {
    forall j, k | 0 <= j < k < |hardRules|
      ensures LineStart(Bullets(hardRules), j) < LineStart(Bullets(hardRules), k)
    {
      LineStartGrows(Bullets(hardRules), j, k);
    }
    forall j, k | 0 <= j < k < |coreRules|
      ensures LineStart(Bullets(coreRules), j) < LineStart(Bullets(coreRules), k)
    {
      LineStartGrows(Bullets(coreRules), j, k);
    }
    if |hardRules| > 0 {
      JoinLength(Bullets(hardRules));
    }
    forall k | 0 <= k < |hardRules|
      ensures HardSectionStart(date) + LineStart(Bullets(hardRules), k) + |"- " + hardRules[k]| < CoreSectionStart(date, hardRules)
    {
      if k + 1 < |hardRules| {
        LineStartGrows(Bullets(hardRules), k, |hardRules|);
      }
    }
  }
}
