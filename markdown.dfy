/**
 * The structural line scanner (markdown_reader.py). One pass over the lines
 * of a file keeps a fenced-code flag and a heading path, and tags each line
 * with both. Headings follow the scanner's own rules, which only loosely
 * resemble CommonMark.
 */
module Markdown {
  import opened Text
  import opened Wrappers

  /** One scanned line: its text, whether it lies in a fenced code block, the heading path in force, and whether it is the last line. */
  datatype MarkdownLine = MarkdownLine(text: string, isCodeBlock: bool, currentSection: seq<string>, isLastLine: bool)

  /** What the scanner carries from one line to the next. */
  datatype ScanState = ScanState(inCode: bool, section: seq<string>)

  /** The number of leading `#` characters. */
  function HashCount(line: string): (h: nat)
    ensures h <= |line| && (forall j :: 0 <= j < h ==> line[j] == '#')
    ensures h < |line| ==> line[h] != '#'
  {
    if line != [] && line[0] == '#' then 1 + HashCount(line[1..]) else 0
  }

  /** The end of the whitespace run starting at `p`. */
  function SpaceEnd(line: string, p: nat): (e: nat)
    requires p <= |line|
    ensures p <= e <= |line| && (forall j :: p <= j < e ==> IsSpace(line[j]))
    ensures e < |line| ==> !IsSpace(line[e])
    decreases |line| - p
  {
    if p < |line| && IsSpace(line[p]) then SpaceEnd(line, p + 1) else p
  }

  /**
   * The regular expression `(#+)\s+(.+)` can match at the start of `line`
   * with `h` hashes and its second group starting at `q`: the hashes, then
   * whitespace, then a character other than a newline.
   */
  predicate AtxSplit(line: string, h: int, q: int)
  {
    1 <= h < q < |line|
    && (forall j :: 0 <= j < h ==> line[j] == '#')
    && (forall j :: h <= j < q ==> IsSpace(line[j]))
    && line[q] != '\n'
  }

  /**
   * `_section_regex.match(line)`: the number of hashes and the stripped
   * heading text. Both quantifiers are greedy and backtrack, so the text is
   * what follows the whole whitespace run, up to the first newline; when
   * only whitespace follows the hashes the text is empty.
   */
  function AtxMatch(line: string): (r: Option<(nat, string)>)
    ensures r.Some? ==> exists q :: AtxSplit(line, r.value.0, q)
  {
    var h := HashCount(line);
    if h == 0 || h == |line| || !IsSpace(line[h]) then None
    else
      var p := SpaceEnd(line, h);
      if p < |line| then
        assert AtxSplit(line, h, p);
        Some((h, HeadingText(line, p)))
      else
        var k := NonNewline(line[h + 1..]);
        if k < |line| - h - 1 then
          assert AtxSplit(line, h, h + 1 + k);
          Some((h, ""))
        else None
  }

  /** The second group, from `p` to the first newline, stripped. */
  function HeadingText(line: string, p: nat): string
    requires p <= |line|
  {
    Strip(line[p..p + IndexOf(line[p..], '\n')])
  }

  /** The index of the first character other than a newline, or `|s|` when there is none. */
  function NonNewline(s: string): (k: nat)
    ensures k <= |s| && (k < |s| ==> s[k] != '\n')
    ensures forall j :: 0 <= j < k ==> s[j] == '\n'
  {
    if s == [] || s[0] != '\n' then 0 else 1 + NonNewline(s[1..])
  }

  /** The regular expression matches exactly when `AtxMatch` reports a heading, with the same number of hashes. */
  lemma AtxMatchExact(line: string, h: int, q: int)
    requires AtxSplit(line, h, q)
    ensures AtxMatch(line).Some? && AtxMatch(line).value.0 == h
  {
    var hc := HashCount(line);
    assert line[h] != '#';
    assert hc == h;
    var p := SpaceEnd(line, h);
    if p == |line| {
      var k := NonNewline(line[h + 1..]);
      assert line[h + 1..][q - h - 1] == line[q];
    }
  }

  /** When text follows the whitespace after the hashes, the heading text is that text up to the newline, stripped. */
  lemma AtxText(line: string, h: nat, p: nat)
    requires 1 <= h < p < |line| && AtxSplit(line, h, p) && !IsSpace(line[p])
    ensures AtxMatch(line) == Some((h, HeadingText(line, p)))
  {
    assert line[h] != '#';
    assert HashCount(line) == h;
    SpaceEndAt(line, h, p);
  }

  lemma {:induction false} SpaceEndAt(line: string, h: nat, p: nat)
    requires h <= p < |line| && !IsSpace(line[p])
    requires forall j :: h <= j < p ==> IsSpace(line[j])
    ensures SpaceEnd(line, h) == p
    decreases p - h
  {
    if h < p {
      SpaceEndAt(line, h + 1, p);
    }
  }

  /** `set(s) == {c}`: a non-empty line made only of `c`, three or more long, as the underline test requires. */
  predicate IsUnderline(s: string, c: char)
  {
    |s| >= 3 && forall k :: 0 <= k < |s| ==> s[k] == c
  }

  /** The heading path after the ATX rule alone. */
  function AtxSection(line: string, inCode: bool, section: seq<string>): seq<string>
  {
    match AtxMatch(line)
    case None => section
    case Some((h, t)) =>
      if inCode then section
      else (if h - 1 <= |section| then section[..h - 1] else section) + [t]
  }

  /** The heading path recorded for line `i`: the ATX rule, then the underline rules, which look at the next line. */
  function SectionAt(lines: seq<string>, i: nat, st: ScanState): seq<string>
    requires i < |lines|
  {
    var s1 := AtxSection(lines[i], st.inCode, st.section);
    if i + 1 < |lines| && IsUnderline(lines[i + 1], '=') then [lines[i]]
    else if i + 1 < |lines| && IsUnderline(lines[i + 1], '-') && |s1| >= 1 then [s1[0], lines[i]]
    else s1
  }

  predicate IsFence(line: string)
  {
    StartsWith(line, "```")
  }

  /** Whether line `k` is read inside a fenced code block: the flag flips after each fence line. */
  function InCodeAt(lines: seq<string>, k: nat): bool
    requires k <= |lines|
  {
    if k == 0 then false else InCodeAt(lines, k - 1) != IsFence(lines[k - 1])
  }

  /** The heading path in force when line `k` is read. */
  function SectionBefore(lines: seq<string>, k: nat): seq<string>
    requires k <= |lines|
    decreases k, 0
  {
    if k == 0 then [] else SectionAt(lines, k - 1, StateAt(lines, k - 1))
  }

  /** The state in force when line `k` is read. */
  function StateAt(lines: seq<string>, k: nat): ScanState
    requires k <= |lines|
    decreases k, 1
  {
    ScanState(InCodeAt(lines, k), SectionBefore(lines, k))
  }

  /** The record the scanner makes for line `i`. */
  function RecordAt(lines: seq<string>, i: nat): MarkdownLine
    requires i < |lines|
  {
    MarkdownLine(lines[i], InCodeAt(lines, i), SectionBefore(lines, i + 1), i == |lines| - 1)
  }

  /** Exactly the final record is flagged as the last line. */
  predicate LastMarked(recs: seq<MarkdownLine>)
  {
    forall j :: 0 <= j < |recs| ==> (recs[j].isLastLine <==> j == |recs| - 1)
  }

  /** The scanner's output as a function of its input. */
  function Scan(lines: seq<string>): (recs: seq<MarkdownLine>)
    ensures |recs| == |lines| && LastMarked(recs)
  {
    seq(|lines|, i requires 0 <= i < |lines| => RecordAt(lines, i))
  }

  /**
   * The heading-path update of one iteration of `from_lines`: the ATX rule
   * (skipped inside a code block), then the two underline rules, which look
   * one line ahead and ignore the code flag.
   */
  method UpdateSection(lines: seq<string>, i: nat, isCodeBlock: bool, section: seq<string>)
    returns (currentSection: seq<string>)
    requires i < |lines|
    ensures currentSection == SectionAt(lines, i, ScanState(isCodeBlock, section))
  {
    var line := lines[i];
    var isLastLine := i == |lines| - 1;
    currentSection := section;
    var sm := AtxMatch(line);
    if !isCodeBlock && sm.Some? {
      var level := sm.value.0 - 1;
      if level <= |currentSection| {
        currentSection := currentSection[..level];
      }
      currentSection := currentSection + [sm.value.1];
    }
    assert currentSection == AtxSection(line, isCodeBlock, section);
    if !isLastLine && IsUnderline(lines[i + 1], '=') {
      currentSection := [line];
    } else if !isLastLine && IsUnderline(lines[i + 1], '-') && |currentSection| >= 1 {
      currentSection := [currentSection[0], line];
    }
  }

  /** `MarkdownReader.from_lines`: one record per line, in order, with the line's own text and the last-line mark on the final record only. */
  method FromLines(lines: seq<string>) returns (records: seq<MarkdownLine>)
    ensures records == Scan(lines)
    ensures |records| == |lines|
    ensures forall i :: 0 <= i < |lines| ==> records[i].text == lines[i]
    ensures forall i :: 0 <= i < |lines| ==> (records[i].isLastLine <==> i == |lines| - 1)
  {
    var isCodeBlock := false;
    var currentSection: seq<string> := [];
    records := [];
    var i := 0;
    while i < |lines|
      invariant 0 <= i <= |lines|
      invariant isCodeBlock == InCodeAt(lines, i) && currentSection == SectionBefore(lines, i)
      invariant |records| == i && forall j :: 0 <= j < i ==> records[j] == RecordAt(lines, j)
    {
      var record;
      record, isCodeBlock, currentSection := ScanLine(lines, i, isCodeBlock, currentSection);
      records := records + [record];
      i := i + 1;
    }
    ScanIs(lines, records);
  }

  /** One iteration of `from_lines`: the record for line `i`, then the code flag and heading path the next line is read with. */
  method ScanLine(lines: seq<string>, i: nat, isCodeBlock: bool, section: seq<string>)
    returns (record: MarkdownLine, nextInCode: bool, nextSection: seq<string>)
    requires i < |lines| && isCodeBlock == InCodeAt(lines, i) && section == SectionBefore(lines, i)
    ensures record == RecordAt(lines, i)
    ensures nextInCode == InCodeAt(lines, i + 1) && nextSection == SectionBefore(lines, i + 1)
  {
    var line := lines[i];
    var isLastLine := i == |lines| - 1;
    assert StateAt(lines, i) == ScanState(isCodeBlock, section);
    nextSection := UpdateSection(lines, i, isCodeBlock, section);
    assert nextSection == SectionBefore(lines, i + 1);
    record := MarkdownLine(line, isCodeBlock, nextSection, isLastLine);
    nextInCode := isCodeBlock;
    if StartsWith(line, "```") {
      nextInCode := !nextInCode;
    }
  }

  /** A list holding each line's record, in order, is the scanner's output. */
  lemma ScanIs(lines: seq<string>, records: seq<MarkdownLine>)
    requires |records| == |lines| && forall j :: 0 <= j < |lines| ==> records[j] == RecordAt(lines, j)
    ensures records == Scan(lines)
    ensures forall i :: 0 <= i < |lines| ==> records[i].text == lines[i]
    ensures forall i :: 0 <= i < |lines| ==> (records[i].isLastLine <==> i == |lines| - 1)
  {
  }

  /** How many of the first `k` lines open or close a fence. */
  function FenceCount(lines: seq<string>, k: nat): nat
    requires k <= |lines|
  {
    if k == 0 then 0 else FenceCount(lines, k - 1) + (if IsFence(lines[k - 1]) then 1 else 0)
  }

  /** A line is in a code block exactly when an odd number of earlier lines start with three backticks. */
  lemma {:induction false} CodeParity(lines: seq<string>, k: nat)
    requires k <= |lines|
    ensures InCodeAt(lines, k) <==> FenceCount(lines, k) % 2 == 1
  {
    if k > 0 {
      CodeParity(lines, k - 1);
    }
  }

  /** The same, for the records `Scan` produces. */
  lemma ScanCodeParity(lines: seq<string>, i: nat)
    requires i < |lines|
    ensures Scan(lines)[i].isCodeBlock <==> FenceCount(lines, i) % 2 == 1
  {
    CodeParity(lines, i);
  }

  /** No underline follows line `i`. */
  predicate NoUnderlineAfter(lines: seq<string>, i: nat)
  {
    i + 1 >= |lines| || (!IsUnderline(lines[i + 1], '=') && !IsUnderline(lines[i + 1], '-'))
  }

  /**
   * An ATX heading outside a code block, not overridden by an underline,
   * keeps the first (#count - 1) entries of the previous path and appends its
   * text: the new path is at most #count long and ends with the text.
   */
  lemma AtxHeading(lines: seq<string>, i: nat, h: nat, t: string)
    requires i < |lines| && NoUnderlineAfter(lines, i)
    requires !StateAt(lines, i).inCode && AtxMatch(lines[i]) == Some((h, t))
    ensures var prev := StateAt(lines, i).section;
            var s := Scan(lines)[i].currentSection;
            |s| <= h && s[|s| - 1] == t
            && s[..|s| - 1] == prev[..if h - 1 <= |prev| then h - 1 else |prev|]
  {
    var st := StateAt(lines, i);
    var prev := st.section;
    ScanSection(lines, i);
    assert SectionAt(lines, i, st) == AtxSection(lines[i], st.inCode, prev);
    var pre := if h - 1 <= |prev| then prev[..h - 1] else prev;
    assert AtxSection(lines[i], false, prev) == pre + [t];
  }

  /** The path `Scan` records for line `i` is the path the scanner computes from the state in force there. */
  lemma ScanSection(lines: seq<string>, i: nat)
    requires i < |lines|
    ensures Scan(lines)[i].currentSection == SectionAt(lines, i, StateAt(lines, i))
  {
  }

  /** Inside a code block, a line the ATX pattern matches leaves the path alone (unless an underline follows). */
  lemma CodeKeepsSection(lines: seq<string>, i: nat)
    requires i < |lines| && NoUnderlineAfter(lines, i)
    requires StateAt(lines, i).inCode
    ensures Scan(lines)[i].currentSection == StateAt(lines, i).section
  {
    ScanSection(lines, i);
  }

  /** A line followed by an `=` underline becomes the whole path, whatever the ATX rule or the code flag said. */
  lemma EqualsUnderline(lines: seq<string>, i: nat)
    requires i + 1 < |lines| && IsUnderline(lines[i + 1], '=')
    ensures Scan(lines)[i].currentSection == [lines[i]]
  {
    ScanSection(lines, i);
  }

  /** A line followed by a `-` underline becomes the second entry after the path's first one, when the path is non-empty. */
  lemma DashUnderline(lines: seq<string>, i: nat)
    requires i + 1 < |lines| && IsUnderline(lines[i + 1], '-')
    ensures var s1 := AtxSection(lines[i], StateAt(lines, i).inCode, StateAt(lines, i).section);
            Scan(lines)[i].currentSection == if |s1| >= 1 then [s1[0], lines[i]] else s1
  {
    ScanSection(lines, i);
    assert lines[i + 1][0] == '-';
  }

  /** The last line is never read as an underlined heading; nor is any line whose next line ends in a newline. */
  lemma NoUnderlineHeading(lines: seq<string>, i: nat)
    requires i < |lines|
    requires i == |lines| - 1 || EndsWith(lines[i + 1], "\n")
    ensures Scan(lines)[i].currentSection
            == AtxSection(lines[i], StateAt(lines, i).inCode, StateAt(lines, i).section)
  {
    ScanSection(lines, i);
    if i + 1 < |lines| {
      var n := lines[i + 1];
      assert n[|n| - 1] == '\n';
    }
  }
}
