# AATIS constitution compliance gate, in Dafny

AATIS keeps one policy layer, its "constitution", that every agent and every
self-generated subtask must obey. The executable part of that layer is a
small, deterministic string validator in `AATISConstutution.py`. This project
models it and proves its properties. It has three parts:

- `check_task(task_text, jurisdiction)` is the quick yes/no gate for a
  proposed task.
  - It runs three fixed hard checks, in order:
    - a case-insensitive, word-bounded match of five destructive command phrases;
    - a `live_production` substring test;
    - an `exfil`-without-`encrypt` test.
  - It appends the code of every check that fires.
  - It then appends `"Violates: " + rule` for every hard rule that the keyword
    heuristic finds in the task.
  - The task is compliant exactly when no hard check fired.
- `keyword_hit(rule, text)` is the keyword heuristic. The keywords of a rule
  are its runs of at least four ASCII letters or digits. The rule hits when
  one of them, lower-cased, occurs in the lower-cased text.
- `constitution_prompt_block()` builds the fragment prepended to every agent's
  system prompt:
  - a dated title;
  - the hard rules and the pentest rules as `"- "` bullet lines under their
    headings;
  - a closing line.

Files:

- `ascii_text.dfy` (module `AsciiText`): ASCII character classes,
  lower-casing and substring search.
- `text_lines.dfy` (module `TextLines`): `"\n".join` and `split("\n")`, their
  round trip, and where each line of a join starts.
- `rules.dfy` (module `Rules`): the `HARD_RULES` and `CORE_PENTEST_RULES`
  lists, as constant data.
- `keywords.dfy` (module `Keywords`): `keyword_hit`.
  - `re.findall(r"[a-zA-Z0-9]{4,}", rule)` is written out as a left-to-right
    scan, `Words`.
  - A string is among the scanned words exactly when it is a maximal run of
    at least four letters and digits; the order and multiplicity of the words
    are not stated.
  - `KeywordHit` is the source's loop with early return. It is proved against
    the predicate `HasKeyword`, which is stated over those maximal runs.
- `compliance.dfy` (module `Compliance`): the destructive-command pattern,
  the three hard checks, the verbose lines and `check_task`.
  - `HardChecks` is the step-by-step appending of codes.
  - `CheckTask` adds the verbose lines.
  - The source's comprehension calls `keyword_hit`. `VerboseViolations`
    calls the predicate `HasKeyword` instead, not the loop `KeywordHit`. This
    is sound because `KeywordHit` is proved to return `HasKeyword` on every
    input.
  - Both are proved against the functions `HardFindings` and
    `VerboseViolations`, and the properties of those functions are proved as
    lemmas.
- `prompt_block.dfy` (module `PromptBlock`): `constitution_prompt_block`.
  - The date is a parameter.
  - The block is built by `BlockOver(date, hardRules, coreRules)`, and
    `ConstitutionPromptBlock(date)` is that block over the two constant lists.
  - The layout lemmas are stated for any two lists. They therefore hold in
    particular for the constants.

## Model

| member | source | states |
|---|---|---|
| Keywords.KeywordHit | AATISConstutution.py:102-107 | returns true exactly when some maximal run of at least four ASCII letters or digits of the rule, lower-cased, is a substring of the lower-cased text |
| Keywords.HasKeyword | AATISConstutution.py:102-107 | the specification of `keyword_hit`: some maximal run of at least four letters and digits of the rule, lower-cased, is a substring of the lower-cased text |
| Keywords.WordsFrom | AATISConstutution.py:104 | the left-to-right scan from a position: every word it returns is at least four characters long and made of ASCII letters and digits |
| Keywords.Words | AATISConstutution.py:104 | `re.findall(r"[a-zA-Z0-9]{4,}", rule)`: every word is at least four characters long and made of ASCII letters and digits |
| Keywords.WordsAreKeywords | AATISConstutution.py:104 | a string is among the words the scan returns exactly when it is a maximal run of at least four letters and digits of the rule, as `re.findall(r"[a-zA-Z0-9]{4,}")` returns them |
| Keywords.NoHitOnEmptyText | AATISConstutution.py:105 | no rule hits the empty text |
| Keywords.NoHitWithoutKeywords | AATISConstutution.py:104-107 | a rule with no run of four letters or digits never hits |
| Keywords.HitIgnoresTextCase | AATISConstutution.py:105 | lower-casing the text does not change whether a rule hits |
| Keywords.HitIgnoresRuleCase | AATISConstutution.py:104-105 | lower-casing the rule does not change whether it hits |
| Keywords.HitMonotone | AATISConstutution.py:105 | a rule that hits a text also hits every text that contains it as a substring |
| Rules.HARD_RULES | AATISConstutution.py:30-41 | the six hard rules, verbatim and in order |
| Rules.CORE_PENTEST_RULES | AATISConstutution.py:46-51 | the four pentest rules, verbatim and in order |
| Compliance.DESTRUCTIVE_PHRASES | AATISConstutution.py:73 | the five alternatives of the destructive pattern, in order |
| Compliance.MatchStartsAWord | AATISConstutution.py:73 | every destructive alternative begins with a word character, so a match begins at the start of a word |
| Compliance.SingleWordFlaggedIffFormat | AATISConstutution.py:73 | a text made only of word characters is flagged destructive exactly when it is `format` in some case, so `reformat` and `formatting` are not flagged |
| Compliance.PhraseHead | AATISConstutution.py:73 | a match begins with the first two characters of its alternative, in some case, and only `dd if=` begins with `dd` |
| Compliance.DdIfNeedsWordAfter | AATISConstutution.py:73 | a `dd if=` match needs a word character right after the `=` |
| Compliance.FlaggedExamples | AATISConstutution.py:73 | `FORMAT c:` and `dd if=disk.img` are flagged destructive |
| Compliance.UnflaggedExamples | AATISConstutution.py:73 | `reformat` and `formatting` are not flagged, and `dd if=/dev/zero of=/dev/sda` is not flagged, since the `/` after `dd if=` is not a word character |
| Compliance.DestructiveIgnoresCase | AATISConstutution.py:73 | the destructive pattern gives the same answer on a text and on its lower-cased form |
| Compliance.WordBoundary | AATISConstutution.py:73 | `\b` at a position: a word character on exactly one side of it |
| Compliance.PhraseAt | AATISConstutution.py:73 | an alternative occurs at a position, ignoring case, with `\b` before and after it |
| Compliance.Destructive | AATISConstutution.py:73 | `_DESTRUCTIVE_PATTERNS.search` finds a match: some alternative occurs at some position in that way |
| Compliance.Fires | AATISConstutution.py:88-94 | the test of each hard check: the destructive pattern, `live_production` in the lower-cased text, or `exfil` without `encrypt` in it |
| Compliance.HardCheck.Code | AATISConstutution.py:88-94 | the code each check appends: `destructive_command`, `out_of_scope_assets` and `possible_exfil` |
| Compliance.HardFindings | AATISConstutution.py:85-94 | the codes of the checks that fire, in the order the checks run |
| Compliance.Fired | AATISConstutution.py:88-94 | the checks kept are at most as many as those run, and a check is kept exactly when it is run and fires |
| Compliance.CodesAppend | AATISConstutution.py:85-94 | the codes of two lists of checks, one after the other, are the codes of the concatenated list |
| Compliance.FiredThree | AATISConstutution.py:88-94 | running three checks in turn keeps each one exactly when it fires, in the order run |
| Compliance.AppendedInOrder | AATISConstutution.py:85-94 | appending, in turn, the code of each check that fires yields the codes of the fired checks in the fixed order |
| Compliance.HardChecks | AATISConstutution.py:85-94 | the codes appended step by step are exactly the codes of the fired checks, in the fixed order |
| Compliance.VerboseViolations | AATISConstutution.py:97 | there are at most as many verbose lines as rules, and each line starts with `Violates: ` |
| Compliance.HitIndices | AATISConstutution.py:97 | the indices of the rules that hit, strictly ascending, each within bounds |
| Compliance.VerboseViolationsFrom | AATISConstutution.py:97 | the verbose lines of the rules from index k on are `Violates: ` + the rule at each hitting index, in order |
| Compliance.VerboseViolationsSelect | AATISConstutution.py:97 | the verbose lines are exactly `Violates: ` + rule for the rules the heuristic finds, in rule order and each once |
| Compliance.CheckTask | AATISConstutution.py:80-99 | the verdict is true exactly when none of the three checks fires, and the list is the hard-check codes followed by the verbose lines |
| Compliance.CheckTaskIgnoresJurisdiction | AATISConstutution.py:80-99 | two calls that differ only in the jurisdiction give the same verdict and the same list |
| Compliance.CodesMember | AATISConstutution.py:89-94 | distinct checks have distinct codes, so a code is in the code list exactly when its check is in the check list |
| Compliance.HardFindingsMembership | AATISConstutution.py:85-99 | a check's code is among the findings exactly when the check fires, and there are no findings exactly when nothing fires |
| Compliance.HardFindingsOrdered | AATISConstutution.py:85-94 | at most three codes, in the fixed order destructive, out of scope, exfil, each at most once |
| Compliance.FileHitsScopeRule | AATISConstutution.py:33 | the text `file` hits the scope rule through that rule's last keyword |
| Compliance.FileFiresNothing | AATISConstutution.py:88-94 | no hard check fires on the text `file` |
| Compliance.CompliantYetListed | AATISConstutution.py:97-99 | the verbose lines never decide the verdict: `file` is compliant, yet its list names the scope rule |
| Compliance.CodesAreNotVerbose | AATISConstutution.py:97 | no hard-check code is ever one of the verbose lines |
| Compliance.ViolationListShape | AATISConstutution.py:85-99 | the list has at most 3 + 6 = 9 entries, a code is in it exactly when its check fires, and the entries before the verbose part are exactly the non-verbose ones |
| Compliance.CodesPresentIff | AATISConstutution.py:88-94 | `destructive_command` is listed iff the pattern matches, `out_of_scope_assets` iff the lower-cased text contains `live_production`, and `possible_exfil` iff it contains `exfil` but not `encrypt` |
| AsciiText.Contains | AATISConstutution.py:90-93 | Python's `needle in hay` on strings, as used at :90, :93 and :105: the needle occurs at some index of the text |
| AsciiText.LowerChar | AATISConstutution.py:105 | lower-casing maps A-Z to a-z and leaves every other character alone, keeping letters, digits and word characters in their classes |
| AsciiText.LowerIdempotent | AATISConstutution.py:105 | lower-casing twice is lower-casing once |
| AsciiText.LowerSlice | AATISConstutution.py:105 | lower-casing commutes with taking a slice |
| AsciiText.LowerKeepsContains | AATISConstutution.py:105 | a substring stays a substring once both strings are lower-cased |
| AsciiText.ContainsTransitive | AATISConstutution.py:105 | a substring of a substring is a substring |
| TextLines.Split | AATISConstutution.py:115-116 | splitting at newlines gives at least one piece, and no piece holds a newline |
| TextLines.Join | AATISConstutution.py:115-116 | `"\n".join(lines)`: the lines with one newline between each two |
| TextLines.SplitJoin | AATISConstutution.py:115-116 | joining newline-free lines with `\n` and splitting the result gives the lines back |
| TextLines.JoinLength | AATISConstutution.py:115-116 | a joined text is as long as its lines plus one newline between each two |
| TextLines.JoinPlacesLines | AATISConstutution.py:115-116 | each line of a join stands at its computed offset as a whole line, with a newline or an end of the text on both sides |
| TextLines.LineStartGrows | AATISConstutution.py:115-116 | a line of a join ends before each later line starts |
| TextLines.LineInContext | AATISConstutution.py:117-122 | a whole line stays a whole line when newline-bounded text is put around it |
| PromptBlock.LayoutFixedLines | AATISConstutution.py:117-122 | the title, both headings and the closing line are whole lines of the block |
| PromptBlock.Title | AATISConstutution.py:118 | the title line, stamped with the date given |
| PromptBlock.Layout | AATISConstutution.py:117-122 | the f-string of the block: title, hard heading, hard section, empty line, pentest heading, pentest section, closing line, each followed by a newline |
| PromptBlock.BlockOver | AATISConstutution.py:115-122 | the block for a date over any two rule lists, with each list joined as `- ` bullet lines |
| PromptBlock.ConstitutionPromptBlock | AATISConstutution.py:110-122 | `constitution_prompt_block()` with the date passed in: the block over `HARD_RULES` and `CORE_PENTEST_RULES` |
| PromptBlock.LayoutPlacesHard | AATISConstutution.py:119 | a line of the hard section is a whole line of the block, after the title and the heading |
| PromptBlock.LayoutPlacesCore | AATISConstutution.py:120 | a line of the pentest section is a whole line of the block, after the hard section and the second heading |
| PromptBlock.BulletsPlaced | AATISConstutution.py:115-116 | each bullet is a whole line of its joined list |
| PromptBlock.PromptBlockFrame | AATISConstutution.py:117-122 | the dated title opens the block; the hard heading, the pentest heading and the closing line are lines of it at their offsets |
| PromptBlock.PromptBlockHardBullets | AATISConstutution.py:115-119 | every hard rule appears in the block as the whole line `- ` + rule |
| PromptBlock.PromptBlockCoreBullets | AATISConstutution.py:116-120 | every pentest rule appears in the block as the whole line `- ` + rule |
| PromptBlock.PromptBlockOrder | AATISConstutution.py:115-121 | within each list the bullets keep list order, and every hard-rule bullet ends before the first pentest-rule bullet starts |

## Left out

- The clock. `datetime.utcnow().date()` (AATISConstutution.py:118) is read from the wall clock. Here the date is a string parameter of `ConstitutionPromptBlock`, already formatted.
- Unicode. Python's `str.lower()` and `re`'s `\b` and `re.I` are Unicode-aware. The model is ASCII only:
  - lower-casing maps A-Z and nothing else;
  - word characters are `[A-Za-z0-9_]`.
- The regular-expression engine. Only the two fixed patterns are modelled, as hand-written predicates: the destructive pattern (:73) and the keyword pattern (:104).
- `_SENSITIVE_PATTERNS` (AATISConstutution.py:74) is defined but never used by any function.
- `SOFT_GUIDELINES` and `USER_OVERRIDE_RULE` (AATISConstutution.py:56-70) are prose data that no function reads.
- The wording of the rule lists carries no checked behaviour. It only feeds `keyword_hit` and the prompt block.
- The memory store, the task state engine and the capability router are described for the system, but no code for them exists here. They are not part of this model.
- The single local list of the source is not kept as one variable. The source appends to one list `violations`; the model splits that work:
  - `HardChecks` does the appending of codes;
  - `CheckTask` concatenates its result with the verbose lines.
  The list returned is the same.
- Python's default value `"Default"` for `jurisdiction` is not modelled. Every call passes the argument.
- The prompt-block lemmas place every line by its offset. They do not state that no rule holds a newline, which is true of the constant lists as written.
- Keywords.WordsAreKeywords: states which strings the scan returns, not the order or multiplicity of `re.findall`'s list; `keyword_hit` only asks whether some word occurs, so neither affects its answer.
