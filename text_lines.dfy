/**
 * Joining lines with a newline, as Python's `"\n".join(lines)` does, and
 * the splitting that undoes it, as `text.split("\n")` does. Splitting is the
 * reference against which the shape of a joined text is stated.
 */
module TextLines {

  predicate NoNewline(s: string) {
    '\n' !in s
  }

  /** Python's `"\n".join(lines)`. */
  function Join(lines: seq<string>): string
    decreases |lines|
  {
    if |lines| == 0 then ""
    else if |lines| == 1 then lines[0]
    else lines[0] + "\n" + Join(lines[1..])
  }

  /** Python's `text.split("\n")`: the pieces between newlines, at least one. */
  function Split(text: string): (lines: seq<string>)
    ensures |lines| >= 1
    ensures forall k :: 0 <= k < |lines| ==> NoNewline(lines[k])
    decreases |text|
  {
    if |text| == 0 then [""]
    else
      var rest := Split(text[1..]);
      if text[0] == '\n' then [""] + rest
      else [[text[0]] + rest[0]] + rest[1..]
  }

  /** A text without a newline is one line. */
  lemma {:induction false} SplitOneLine(line: string)
    requires NoNewline(line)
    ensures Split(line) == [line]
    decreases |line|
  {
    if |line| > 0 {
      SplitOneLine(line[1..]);
      assert [line[0]] + line[1..] == line;
    }
  }

  /** A first line followed by a newline splits off as one piece. */
  lemma {:induction false} SplitFirstLine(line: string, rest: string)
    requires NoNewline(line)
    ensures Split(line + "\n" + rest) == [line] + Split(rest)
    decreases |line|
  {
    var text := line + "\n" + rest;
    if |line| == 0 {
      assert text == "\n" + rest;
      assert text[1..] == rest;
    } else {
      assert text[1..] == line[1..] + "\n" + rest;
      SplitFirstLine(line[1..], rest);
      assert [line[0]] + line[1..] == line;
    }
  }

  /**
   * Round trip: splitting a join of newline-free lines gives the lines back.
   * This is the partner that pins `Join` down; the prompt-block lemmas place
   * lines by offset instead, through `JoinPlacesLines`.
   */
  lemma {:induction false} SplitJoin(lines: seq<string>)
    requires |lines| >= 1
    requires forall k :: 0 <= k < |lines| ==> NoNewline(lines[k])
    ensures Split(Join(lines)) == lines
    decreases |lines|
  {
    if |lines| == 1 {
      SplitOneLine(lines[0]);
    } else {
      var tail := lines[1..];
      SplitFirstLine(lines[0], Join(tail));
      SplitJoin(tail);
      assert [lines[0]] + tail == lines;
    }
  }

  /** Where line `k` starts in `Join(lines)`: the lengths of the earlier lines, each with its newline. */
  function LineStart(lines: seq<string>, k: nat): nat
    requires k <= |lines|
  {
    if k == 0 then 0 else LineStart(lines, k - 1) + |lines[k - 1]| + 1
  }

  /** `line` stands at offset `p` of `text` as a whole line: newlines, or the ends, on both sides. */
  predicate IsLineAt(text: string, line: string, p: int) {
    && 0 <= p && p + |line| <= |text|
    && text[p..p + |line|] == line
    && (p == 0 || text[p - 1] == '\n')
    && (p + |line| == |text| || text[p + |line|] == '\n')
  }

  lemma {:induction false} LineStartTail(lines: seq<string>, k: nat)
    requires 1 <= k <= |lines|
    ensures LineStart(lines, k) == |lines[0]| + 1 + LineStart(lines[1..], k - 1)
  {
    if k > 1 {
      LineStartTail(lines, k - 1);
    }
  }

  /** A joined text is as long as its lines plus one newline between each two. */
  lemma {:induction false} JoinLength(lines: seq<string>)
    requires |lines| >= 1
    ensures |Join(lines)| + 1 == LineStart(lines, |lines|)
    decreases |lines|
  {
    if |lines| > 1 {
      JoinLength(lines[1..]);
      LineStartTail(lines, |lines|);
    }
  }

  /** A whole line keeps standing as a whole line once text ending and starting with newlines surrounds it. */
  lemma LineInContext(before: string, text: string, after: string, line: string, p: int)
    requires IsLineAt(text, line, p)
    requires before == [] || before[|before| - 1] == '\n'
    requires after == [] || after[0] == '\n'
    ensures IsLineAt(before + text + after, line, |before| + p)
  {
    var whole := before + text + after;
    assert whole[|before| + p..|before| + p + |line|] == text[p..p + |line|];
  }

  /** Every line of a join stands at its offset as a whole line. */
  lemma {:induction false} JoinPlacesLines(lines: seq<string>, k: nat)
    requires k < |lines|
    ensures IsLineAt(Join(lines), lines[k], LineStart(lines, k))
    decreases |lines|
  {
    if |lines| > 1 {
      var tail := lines[1..];
      var first := lines[0] + "\n";
      assert Join(lines) == first + Join(tail) + "";
      if k == 0 {
        assert Join(lines)[0..|lines[0]|] == lines[0];
      } else {
        JoinPlacesLines(tail, k - 1);
        LineStartTail(lines, k);
        LineInContext(first, Join(tail), "", tail[k - 1], LineStart(tail, k - 1));
      }
    }
  }

  /** Line starts grow with the line index. */
  lemma {:induction false} LineStartGrows(lines: seq<string>, j: nat, k: nat)
    requires j < k <= |lines|
    ensures LineStart(lines, j) + |lines[j]| < LineStart(lines, k)
    decreases k - j
  {
    if j + 1 < k {
      LineStartGrows(lines, j, k - 1);
    }
  }
}
