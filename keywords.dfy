/**
 * The keyword heuristic `keyword_hit(rule, text)`: the significant keywords
 * of a rule are its maximal runs of at least four ASCII letters or digits
 * (what `re.findall(r"[a-zA-Z0-9]{4,}", rule)` returns, in order), and the
 * rule hits when one of them, lower-cased, occurs in the lower-cased text.
 */
module Keywords {
  import opened AsciiText

  /** The shortest run of letters and digits that counts as a keyword. */
  const MIN_KEYWORD: nat := 4

  /** `s[a..b]` is a maximal run of ASCII letters and digits. */
  predicate MaxRun(s: string, a: int, b: int) {
    && 0 <= a < b <= |s|
    && (forall k :: a <= k < b ==> IsAlnum(s[k]))
    && (a == 0 || !IsAlnum(s[a - 1]))
    && (b == |s| || !IsAlnum(s[b]))
  }

  /** `s[a..b]` is a keyword of `s`: a maximal run at least MIN_KEYWORD long. */
  predicate IsKeywordAt(s: string, a: int, b: int) {
    MaxRun(s, a, b) && b - a >= MIN_KEYWORD
  }

  /**
   * The specification of `keyword_hit`: some keyword of the rule, lower-cased,
   * is a substring of the lower-cased text.
   */
  predicate HasKeyword(rule: string, text: string) {
    exists a, b | 0 <= a < b <= |rule| ::
      IsKeywordAt(rule, a, b) && Contains(Lower(text), Lower(rule[a..b]))
  }

  /** Where the run of letters and digits that starts at `i` ends. */
  function RunEnd(s: string, i: nat): (j: nat)
    requires i <= |s|
    ensures i <= j <= |s|
    ensures forall k :: i <= k < j ==> IsAlnum(s[k])
    ensures j == |s| || !IsAlnum(s[j])
    decreases |s| - i
  {
    if i == |s| || !IsAlnum(s[i]) then i else RunEnd(s, i + 1)
  }

  /** Position `i` does not lie strictly inside a run of letters and digits. */
  predicate OutsideRun(s: string, i: nat)
    requires i <= |s|
  {
    i == 0 || i == |s| || !IsAlnum(s[i - 1]) || !IsAlnum(s[i])
  }

  /** The keywords of `s` from position `i` on, scanning left to right. */
  function WordsFrom(s: string, i: nat): (words: seq<string>)
    requires i <= |s|
    ensures forall m :: 0 <= m < |words| ==> |words[m]| >= MIN_KEYWORD
    ensures forall m :: 0 <= m < |words| ==> forall c :: c in words[m] ==> IsAlnum(c)
    decreases |s| - i
  {
    if i == |s| then []
    else if !IsAlnum(s[i]) then WordsFrom(s, i + 1)
    else
      var j := RunEnd(s, i);
      (if j - i >= MIN_KEYWORD then [s[i..j]] else []) + WordsFrom(s, j)
  }

  /** `re.findall(r"[a-zA-Z0-9]{4,}", s)`. */
  function Words(s: string): (words: seq<string>)
    ensures forall m :: 0 <= m < |words| ==> |words[m]| >= MIN_KEYWORD
    ensures forall m :: 0 <= m < |words| ==> forall c :: c in words[m] ==> IsAlnum(c)
  {
    WordsFrom(s, 0)
  }

  /** Every word the scan returns from `i` on is a keyword of `s` starting at or after `i`. */
  lemma {:induction false} WordsFromSound(s: string, i: nat, m: nat)
    requires i <= |s| && OutsideRun(s, i)
    requires m < |WordsFrom(s, i)|
    ensures exists a, b | i <= a < b <= |s| :: IsKeywordAt(s, a, b) && WordsFrom(s, i)[m] == s[a..b]
    decreases |s| - i
  {
    if !IsAlnum(s[i]) {
      WordsFromSound(s, i + 1, m);
    } else {
      var j := RunEnd(s, i);
      var head: seq<string> := if j - i >= MIN_KEYWORD then [s[i..j]] else [];
      assert WordsFrom(s, i) == head + WordsFrom(s, j);
      if m < |head| {
        assert IsKeywordAt(s, i, j);
      } else {
        WordsFromSound(s, j, m - |head|);
        assert WordsFrom(s, i)[m] == WordsFrom(s, j)[m - |head|];
      }
    }
  }

  /** Every keyword of `s` that starts at or after `i` is returned by the scan from `i`. */
  lemma {:induction false} WordsFromComplete(s: string, i: nat, a: int, b: int)
    requires i <= |s| && OutsideRun(s, i)
    requires IsKeywordAt(s, a, b) && i <= a
    ensures s[a..b] in WordsFrom(s, i)
    decreases |s| - i
  {
    if !IsAlnum(s[i]) {
      WordsFromComplete(s, i + 1, a, b);
    } else {
      var j := RunEnd(s, i);
      var head: seq<string> := if j - i >= MIN_KEYWORD then [s[i..j]] else [];
      assert WordsFrom(s, i) == head + WordsFrom(s, j);
      if a == i {
        assert j == b;
      } else {
        assert j <= a;
        WordsFromComplete(s, j, a, b);
      }
    }
  }

  /**
   * What `re.findall(r"[a-zA-Z0-9]{4,}", rule)` returns is exactly the set of
   * maximal runs of at least four letters and digits.
   */
  lemma WordsAreKeywords(s: string, w: string)
    ensures w in Words(s) <==> exists a, b | 0 <= a < b <= |s| :: IsKeywordAt(s, a, b) && w == s[a..b]
  {
    if w in Words(s) {
      var m :| 0 <= m < |Words(s)| && Words(s)[m] == w;
      WordsFromSound(s, 0, m);
    }
    if exists a, b | 0 <= a < b <= |s| :: IsKeywordAt(s, a, b) && w == s[a..b] {
      var a, b :| 0 <= a < b <= |s| && IsKeywordAt(s, a, b) && w == s[a..b];
      WordsFromComplete(s, 0, a, b);
    }
  }

  /**
   * `keyword_hit(rule, text)`: try the keywords of the rule in order and stop
   * at the first one that occurs, lower-cased, in the lower-cased text.
   */
  method KeywordHit(rule: string, text: string) returns (hit: bool)
    ensures hit <==> HasKeyword(rule, text)
  {
    var words := Words(rule);
    var i := 0;
    while i < |words|
      invariant 0 <= i <= |words|
      invariant forall k :: 0 <= k < i ==> !Contains(Lower(text), Lower(words[k]))
    {
      if Contains(Lower(text), Lower(words[i])) {
        WordsAreKeywords(rule, words[i]);
        return true;
      }
      i := i + 1;
    }
    if HasKeyword(rule, text) {
      var a, b :| 0 <= a < b <= |rule| && IsKeywordAt(rule, a, b) && Contains(Lower(text), Lower(rule[a..b]));
      WordsAreKeywords(rule, rule[a..b]);
    }
    return false;
  }

  /** An empty text contains no keyword. */
  lemma NoHitOnEmptyText(rule: string)
    ensures !HasKeyword(rule, "")
  {
  }

  /** A rule without a run of four letters or digits never hits. */
  lemma NoHitWithoutKeywords(rule: string, text: string)
    requires Words(rule) == []
    ensures !HasKeyword(rule, text)
  {
    if HasKeyword(rule, text) {
      var a, b :| 0 <= a < b <= |rule| && IsKeywordAt(rule, a, b) && Contains(Lower(text), Lower(rule[a..b]));
      WordsAreKeywords(rule, rule[a..b]);
    }
  }

  /** The heuristic ignores the case of the text. */
  lemma HitIgnoresTextCase(rule: string, text: string)
    ensures HasKeyword(rule, Lower(text)) == HasKeyword(rule, text)
  {
    LowerIdempotent(text);
  }

  /** The heuristic ignores the case of the rule as well. */
  lemma HitIgnoresRuleCase(rule: string, text: string)
    ensures HasKeyword(Lower(rule), text) == HasKeyword(rule, text)
  {
    var lowered := Lower(rule);
    forall a, b | 0 <= a < b <= |rule|
      ensures IsKeywordAt(lowered, a, b) == IsKeywordAt(rule, a, b)
      ensures Lower(lowered[a..b]) == Lower(rule[a..b])
    {
      LowerSlice(rule, a, b);
      LowerIdempotent(rule[a..b]);
    }
  }

  /** Monotone: a text that contains a hitting text hits too. */
  lemma HitMonotone(rule: string, text: string, larger: string)
    requires Contains(larger, text)
    requires HasKeyword(rule, text)
    ensures HasKeyword(rule, larger)
  {
    var a, b :| 0 <= a < b <= |rule| && IsKeywordAt(rule, a, b) && Contains(Lower(text), Lower(rule[a..b]));
    LowerKeepsContains(larger, text);
    ContainsTransitive(Lower(larger), Lower(text), Lower(rule[a..b]));
  }
}
