/**
 * `DefaultTransformer.transform`: one pass over a note's records that
 * rebuilds the file line by line. Each record's text is replaced in place
 * as the pass goes, so "the previous line" is the previous record's text
 * as that record's own iteration left it; for the first record it is the
 * last record's text, still untouched (Python's `lines[-1]`).
 */
module Transform {
  import opened Wrappers
  import opened Text
  import opened Ids
  import opened Markdown
  import opened Notes
  import opened Kasten
  import opened Transformer
  import opened Lists

  /** What the pass carries between records: the output lines and the previous record's final text. */
  datatype Pass = Pass(out: seq<string>, prev: string)

  /** `out_lines[:-1]`, which leaves an empty list empty. */
  function DropLast(out: seq<string>): (r: seq<string>)
    ensures r <= out
    ensures out != [] ==> r + [out[|out| - 1]] == out
    ensures out == [] ==> r == []
  {
    if |out| == 0 then [] else out[..|out| - 1]
  }

  /** `"tags: " in text.lower()`. */
  predicate HasTagsMarker(text: string)
  {
    Contains(Lower(text), "tags: ")
  }

  /** A line of the old Backlinks section: exactly two heading levels, the second called `backlinks` in any case. */
  predicate RemovedSection(r: MarkdownLine)
  {
    |r.currentSection| == 2 && Lower(r.currentSection[1]) == "backlinks"
  }

  /** The blank lines put between the text and a new Backlinks section, so that exactly one blank line separates them. */
  function Separator(out: seq<string>): (r: seq<string>)
    ensures |r| <= 2 && forall k :: 0 <= k < |r| ==> r[k] == "\n"
    ensures out == [] ==> r == []
    ensures out != [] && EndsWith(out[|out| - 1], "\n") && out[|out| - 1] != "\n" ==> r == ["\n"]
    ensures out != [] && !EndsWith(out[|out| - 1], "\n") ==> r == ["\n", "\n"]
    ensures out != [] && out[|out| - 1] == "\n" ==> r == []
  {
    if |out| >= 1 && out[|out| - 1] == "\n" then []
    else if |out| >= 1 && EndsWith(out[|out| - 1], "\n") then ["\n"]
    else if |out| >= 1 then ["\n", "\n"]
    else []
  }

  /** One bullet per id, in the given order. */
  function Bullets(c: Context, ids: seq<string>): (r: seq<string>)
    ensures |r| == |ids|
    ensures forall k :: 0 <= k < |ids| ==> StartsWith(r[k], "* [[" + ids[k] + "]]") && EndsWith(r[k], "\n")
  {
    BulletsShape(c, ids);
    seq(|ids|, k requires 0 <= k < |ids| => "* " + FormatLink(c, ids[k]) + "\n")
  }

  /** Each bullet opens with `* ` and the id's token, and ends the line. */
  lemma BulletsShape(c: Context, ids: seq<string>)
    ensures forall k :: 0 <= k < |ids| ==>
              var b := "* " + FormatLink(c, ids[k]) + "\n";
              StartsWith(b, "* [[" + ids[k] + "]]") && EndsWith(b, "\n")
  {
    forall k | 0 <= k < |ids|
      ensures var b := "* " + FormatLink(c, ids[k]) + "\n";
              StartsWith(b, "* [[" + ids[k] + "]]") && EndsWith(b, "\n")
    {
      var l := FormatLink(c, ids[k]);
      var t := "[[" + ids[k] + "]]";
      assert l[..|t|] == t;
      assert ("* " + l + "\n")[..2 + |t|] == "* " + t;
      assert "* [[" + ids[k] + "]]" == "* " + t;
    }
  }

  /** The Backlinks heading, a blank line and one bullet per backlink. */
  function BacklinkSection(c: Context, backlinks: set<string>): (r: seq<string>)
    ensures |r| == |backlinks| + 2
  {
    ["## Backlinks\n", "\n"] + Bullets(c, SortSet(backlinks))
  }

  /** The lines appended after the last record when the note has backlinks. */
  function BacklinkBlock(c: Context, out: seq<string>, backlinks: set<string>): seq<string>
  {
    if backlinks == {} then []
    else Separator(out) + BacklinkSection(c, backlinks)
  }

  /** The end of an iteration that was not cut short: rewrite the links, emit unless in the old Backlinks section, and after the last record append the new one. */
  function Finish(c: Context, r: MarkdownLine, out: seq<string>, text: string): (res: Result<Pass>)
    ensures res.Err? <==> r.isLastLine && c.note.nid !in c.st.nodes
    ensures res.Ok? ==> res.value.prev == LineRewrite(c, text)
  {
    var t := LineRewrite(c, text);
    var o := if RemovedSection(r) then out else out + [t];
    if r.isLastLine then
      match Backlinks(c.st, c.note.nid)
      case Err(e) => Err(e)
      case Ok(b) => Ok(Pass(o + BacklinkBlock(c, o, b), t))
    else Ok(Pass(o, t))
  }

  /** The previous record's text as the source reads it: `lines[i - 1]`, which for the first record is the last one. */
  function PrevText(recs: seq<MarkdownLine>, i: nat, p: Pass): string
    requires i < |recs|
  {
    if i >= 1 then p.prev else recs[|recs| - 1].text
  }

  /** Whether a tags line is inserted before record `i`: the note has no tags, the previous line is a title and the tag transformer adds some. */
  predicate InsertsTags(c: Context, recs: seq<MarkdownLine>, i: nat, p: Pass)
    requires i < |recs|
  {
    c.note.tags == {} && i >= 1 && StartsWith(p.prev, "# ") && !recs[i].isCodeBlock && c.tagger({}) != {}
  }

  /** The output so far and the current record's text, part way through an iteration. */
  datatype Line = Line(out: seq<string>, text: string)

  /** A code-block line holding `tags: ` is dropped, and with it the last output line when the previous line is blank. */
  function CodeTagsOut(recs: seq<MarkdownLine>, i: nat, p: Pass): (r: seq<string>)
    requires i < |recs|
    ensures i >= 1 && Strip(p.prev) == "" && p.out != [] ==> r == p.out[..|p.out| - 1]
    ensures !(i >= 1 && Strip(p.prev) == "") ==> r == p.out
  {
    if i >= 1 && Strip(p.prev) == "" then DropLast(p.out) else p.out
  }

  /** Setext underlines outside code: `===` and `---` drop the last output line and turn the previous line into a level-1 or level-2 heading. */
  function Headings(r: MarkdownLine, out: seq<string>, prevText: string): (l: Line)
    ensures !r.isCodeBlock && StartsWith(r.text, "===") ==> l == Line(DropLast(out), "# " + prevText)
    ensures !r.isCodeBlock && !StartsWith(r.text, "===") && StartsWith(r.text, "---") ==> l == Line(DropLast(out), "## " + prevText)
    ensures r.isCodeBlock || !(StartsWith(r.text, "===") || StartsWith(r.text, "---")) ==> l == Line(out, r.text)
  {
    var o1 := if !r.isCodeBlock && StartsWith(r.text, "===") then DropLast(out) else out;
    var t1 := if !r.isCodeBlock && StartsWith(r.text, "===") then "# " + prevText else r.text;
    var o2 := if !r.isCodeBlock && StartsWith(t1, "---") then DropLast(o1) else o1;
    var t2 := if !r.isCodeBlock && StartsWith(t1, "---") then "## " + prevText else t1;
    assert ("# " + prevText)[0] == '#';
    Line(o2, t2)
  }

  /** The tags line inserted after a title when the note has none. */
  function WithTags(c: Context, recs: seq<MarkdownLine>, i: nat, p: Pass, l: Line): Line
    requires i < |recs|
  {
    if InsertsTags(c, recs, i, p) then Line(l.out + ["\n", FormatTags(c.tagger({}))], l.text) else l
  }

  /** A tags line outside code: dropped when the tag transformer leaves no tags, otherwise rewritten from them. */
  function TagsLine(c: Context, r: MarkdownLine, l: Line): (res: Result<Pass>)
    ensures res.Err? ==> r.isLastLine && c.note.nid !in c.st.nodes && res.error == NodeNotFound(c.note.nid)
  {
    var tags := c.tagger(ReadTags(l.text));
    if tags == {} then Ok(Pass(l.out, l.text))
    else Finish(c, r, l.out, FormatTags(tags))
  }

  /** One iteration of the loop, on record `i`. */
  function Step(c: Context, recs: seq<MarkdownLine>, i: nat, p: Pass): (res: Result<Pass>)
    requires i < |recs|
    ensures res.Err? ==> recs[i].isLastLine && c.note.nid !in c.st.nodes && res.error == NodeNotFound(c.note.nid)
  {
    var r := recs[i];
    if r.isCodeBlock && HasTagsMarker(r.text) then Ok(Pass(CodeTagsOut(recs, i, p), r.text))
    else
      var l := WithTags(c, recs, i, p, Headings(r, p.out, PrevText(recs, i, p)));
      if HasTagsMarker(l.text) && !r.isCodeBlock then TagsLine(c, r, l)
      else Finish(c, r, l.out, l.text)
  }

  /** The pass over the first `k` records. */
  function Run(c: Context, recs: seq<MarkdownLine>, k: nat): (res: Result<Pass>)
    requires k <= |recs|
    ensures res.Err? ==> c.note.nid !in c.st.nodes && res.error == NodeNotFound(c.note.nid)
  {
    if k == 0 then Ok(Pass([], ""))
    else
      match Run(c, recs, k - 1)
      case Err(e) => Err(e)
      case Ok(p) => Step(c, recs, k - 1, p)
  }

  /** What `transform` returns for a note whose file holds `lines`: the output lines joined. */
  function TransformSpec(c: Context, lines: seq<string>): (res: Result<string>)
    ensures res.Err? ==> c.note.nid !in c.st.nodes && res.error == NodeNotFound(c.note.nid)
  {
    var recs := Scan(lines);
    match Run(c, recs, |recs|)
    case Err(e) => Err(e)
    case Ok(p) => Ok(Join(p.out))
  }

  /** The Setext step of the loop body, rewriting `texts[i]` in place. */
  method HeadingsInPlace(r: MarkdownLine, texts: array<string>, i: nat, out: seq<string>, prevText: string)
    returns (out': seq<string>)
    requires i < texts.Length && texts[i] == r.text
    modifies texts
    ensures forall j :: 0 <= j < texts.Length && j != i ==> texts[j] == old(texts[j])
    ensures Line(out', texts[i]) == Headings(r, out, prevText)
  {
    out' := out;
    if !r.isCodeBlock && StartsWith(texts[i], "===") {
      out' := DropLast(out');
      texts[i] := "# " + prevText;
    }
    if !r.isCodeBlock && StartsWith(texts[i], "---") {
      out' := DropLast(out');
      texts[i] := "## " + prevText;
    }
  }

  /** The end of the loop body: links, emission and, after the last record, the Backlinks section. */
  method FinishInPlace(c: Context, r: MarkdownLine, texts: array<string>, i: nat, out: seq<string>)
    returns (out': seq<string>, err: Option<Error>)
    requires i < texts.Length
    modifies texts
    ensures forall j :: 0 <= j < texts.Length && j != i ==> texts[j] == old(texts[j])
    ensures Finish(c, r, out, old(texts[i])).Err? <==> err.Some?
    ensures err.Some? ==> err.value == Finish(c, r, out, old(texts[i])).error
    ensures err.None? ==> Pass(out', texts[i]) == Finish(c, r, out, old(texts[i])).value
  {
    out' := out;
    err := None;
    texts[i] := LineRewrite(c, texts[i]);
    if !RemovedSection(r) {
      out' := out' + [texts[i]];
    }
    if r.isLastLine {
      var backlinks := Backlinks(c.st, c.note.nid);
      if backlinks.Err? {
        return out', Some(backlinks.error);
      }
      out' := out' + BacklinkBlock(c, out', backlinks.value);
    }
  }

  /**
   * The body of the loop for record `i`. The records' texts live in an
   * array that the iteration overwrites in place, as the source does with
   * `md_line.text`; the previous line is read back from it. Returns the new
   * output, or the error of the backlinks query.
   */
  method ProcessLine(c: Context, recs: seq<MarkdownLine>, texts: array<string>, i: nat, out: seq<string>, ghost p: Pass)
    returns (out': seq<string>, err: Option<Error>)
    requires texts.Length == |recs| && i < |recs|
    requires texts[i] == recs[i].text && out == p.out
    requires i >= 1 ==> texts[i - 1] == p.prev
    requires i == 0 ==> texts[|recs| - 1] == recs[|recs| - 1].text
    modifies texts
    ensures forall j :: 0 <= j < texts.Length && j != i ==> texts[j] == old(texts[j])
    ensures Step(c, recs, i, p).Err? <==> err.Some?
    ensures err.Some? ==> err.value == Step(c, recs, i, p).error
    ensures err.None? ==> Pass(out', texts[i]) == Step(c, recs, i, p).value
  {
    var r := recs[i];
    var n := texts.Length;
    var prevText := if i >= 1 then texts[i - 1] else texts[n - 1];
    assert prevText == PrevText(recs, i, p);
    err := None;
    if r.isCodeBlock && HasTagsMarker(texts[i]) {
      out' := out;
      if i >= 1 && Strip(texts[i - 1]) == "" {
        out' := DropLast(out');
      }
      StepCodeTags(c, recs, i, p);
      return;
    }
    out' := HeadingsInPlace(r, texts, i, out, prevText);
    ghost var l := Line(out', texts[i]);
    if c.note.tags == {} && i >= 1 && StartsWith(texts[i - 1], "# ") && !r.isCodeBlock {
      var tags := c.tagger({});
      if tags != {} {
        out' := out' + ["\n", FormatTags(tags)];
      }
    }
    ghost var w := Line(out', texts[i]);
    assert w == WithTags(c, recs, i, p, l);
    StepOfLine(c, recs, i, p, w);
    if HasTagsMarker(texts[i]) && !r.isCodeBlock {
      var tags := c.tagger(ReadTags(texts[i]));
      if tags == {} {
        return;
      }
      texts[i] := FormatTags(tags);
    }
    out', err := FinishInPlace(c, r, texts, i, out');
  }

  /** A tags marker inside code only drops the blank line before it. */
  lemma StepCodeTags(c: Context, recs: seq<MarkdownLine>, i: nat, p: Pass)
    requires i < |recs| && recs[i].isCodeBlock && HasTagsMarker(recs[i].text)
    ensures Step(c, recs, i, p) == Ok(Pass(CodeTagsOut(recs, i, p), recs[i].text))
  {
  }

  /** Any other record: the line after the headings and tags steps is either a tags line or finished. */
  lemma StepOfLine(c: Context, recs: seq<MarkdownLine>, i: nat, p: Pass, w: Line)
    requires i < |recs| && !(recs[i].isCodeBlock && HasTagsMarker(recs[i].text))
    requires w == WithTags(c, recs, i, p, Headings(recs[i], p.out, PrevText(recs, i, p)))
    ensures HasTagsMarker(w.text) && !recs[i].isCodeBlock ==> Step(c, recs, i, p) == TagsLine(c, recs[i], w)
    ensures !(HasTagsMarker(w.text) && !recs[i].isCodeBlock) ==> Step(c, recs, i, p) == Finish(c, recs[i], w.out, w.text)
  {
  }

  /**
   * A tags line outside code: when the tag transformer returns no tags the
   * line is dropped; otherwise it is replaced by `_format_tags` of what the
   * transformer returns, which is then link-rewritten and emitted like any
   * other line.
   */
  lemma TagsLineRule(c: Context, recs: seq<MarkdownLine>, i: nat, p: Pass)
    requires i < |recs| && !recs[i].isCodeBlock
    requires HasTagsMarker(WithTags(c, recs, i, p, Headings(recs[i], p.out, PrevText(recs, i, p))).text)
    ensures var l := WithTags(c, recs, i, p, Headings(recs[i], p.out, PrevText(recs, i, p)));
            var tags := c.tagger(ReadTags(l.text));
            (tags == {} ==> Step(c, recs, i, p) == Ok(Pass(l.out, l.text)))
            && (tags != {} ==> Step(c, recs, i, p) == Finish(c, recs[i], l.out, FormatTags(tags)))
            && (tags != {} && !recs[i].isLastLine && !RemovedSection(recs[i]) ==>
                  Step(c, recs, i, p) == Ok(Pass(l.out + [LineRewrite(c, FormatTags(tags))], LineRewrite(c, FormatTags(tags)))))
  {
    var l := WithTags(c, recs, i, p, Headings(recs[i], p.out, PrevText(recs, i, p)));
    StepOfLine(c, recs, i, p, l);
  }

  lemma RunAfterErr(c: Context, recs: seq<MarkdownLine>, k: nat)
    requires 0 < k <= |recs| && Run(c, recs, k - 1).Err?
    ensures Run(c, recs, k) == Run(c, recs, k - 1)
  {
  }

  /** Once the pass has failed it stays failed. */
  lemma {:induction false} RunErrStays(c: Context, recs: seq<MarkdownLine>, k: nat, m: nat)
    requires k <= m <= |recs| && Run(c, recs, k).Err?
    ensures Run(c, recs, m) == Run(c, recs, k)
    decreases m - k
  {
    if k < m {
      RunErrStays(c, recs, k, m - 1);
      assert Run(c, recs, m - 1).Err?;
      RunAfterErr(c, recs, m);
    }
  }

  /** A pass that has not failed goes on with the next record's step. */
  lemma RunNext(c: Context, recs: seq<MarkdownLine>, k: nat)
    requires k < |recs| && Run(c, recs, k).Ok?
    ensures Run(c, recs, k + 1) == Step(c, recs, k, Run(c, recs, k).value)
  {
  }

  /** The pass after a step that fails is that failure; after one that does not, it is the step's pass. */
  lemma StepOutcome(c: Context, recs: seq<MarkdownLine>, i: nat, p: Pass)
    requires i < |recs| && Run(c, recs, i) == Ok(p)
    ensures Step(c, recs, i, p).Err? ==> Run(c, recs, |recs|) == Step(c, recs, i, p)
    ensures Step(c, recs, i, p).Ok? ==> Run(c, recs, i + 1) == Step(c, recs, i, p)
  {
    RunNext(c, recs, i);
    if Step(c, recs, i, p).Err? {
      RunErrStays(c, recs, i + 1, |recs|);
    }
  }

  /**
   * One iteration of the loop of `transform`: the pass over the first `i`
   * records has given `p`, and the iteration extends it to `i + 1`
   * records, or fails as the whole pass then does.
   */
  method Advance(c: Context, recs: seq<MarkdownLine>, texts: array<string>, i: nat, out: seq<string>, ghost p: Pass)
    returns (out': seq<string>, err: Option<Error>, ghost p': Pass)
    requires texts.Length == |recs| && i < |recs|
    requires forall j :: i <= j < |recs| ==> texts[j] == recs[j].text
    requires Run(c, recs, i) == Ok(p) && out == p.out
    requires i >= 1 ==> texts[i - 1] == p.prev
    modifies texts
    ensures forall j :: i < j < |recs| ==> texts[j] == recs[j].text
    ensures err.Some? ==> Run(c, recs, |recs|) == Err(err.value)
    ensures err.None? ==> Run(c, recs, i + 1) == Ok(p') && out' == p'.out && texts[i] == p'.prev
  {
    out', err := ProcessLine(c, recs, texts, i, out, p);
    StepOutcome(c, recs, i, p);
    p' := if err.None? then Step(c, recs, i, p).value else p;
  }

  /** `transform`, with the file's lines given: the loop over the records, then the output joined. */
  method Transform(c: Context, lines: seq<string>) returns (res: Result<string>)
    ensures res == TransformSpec(c, lines)
  {
    var recs := FromLines(lines);
    var n := |recs|;
    var texts := new string[n](j requires 0 <= j < n => recs[j].text);
    var out: seq<string> := [];
    ghost var p := Pass([], "");
    var i := 0;
    while i < n
      invariant 0 <= i <= n && texts.Length == n
      invariant forall j :: i <= j < n ==> texts[j] == recs[j].text
      invariant Run(c, recs, i) == Ok(p) && out == p.out
      invariant i >= 1 ==> texts[i - 1] == p.prev
    {
      var err;
      out, err, p := Advance(c, recs, texts, i, out, p);
      if err.Some? {
        return Err(err.value);
      }
      i := i + 1;
    }
    res := Ok(Join(out));
  }

  // Properties of the rules.

  /** Whether record `i` ends its iteration early (`continue`): a tags line in code, or a tags line the tag transformer empties. */
  predicate CutShort(c: Context, recs: seq<MarkdownLine>, i: nat, p: Pass)
    requires i < |recs|
  {
    var r := recs[i];
    (r.isCodeBlock && HasTagsMarker(r.text))
    || (!r.isCodeBlock
        && var l := Headings(r, p.out, PrevText(recs, i, p));
           HasTagsMarker(l.text) && c.tagger(ReadTags(l.text)) == {})
  }

  /** An iteration fails exactly when it reaches the end of the last record and the note's id is not in the graph. */
  lemma StepErr(c: Context, recs: seq<MarkdownLine>, i: nat, p: Pass)
    requires i < |recs|
    ensures Step(c, recs, i, p).Err? <==> recs[i].isLastLine && !CutShort(c, recs, i, p) && c.note.nid !in c.st.nodes
  {
  }

  /**
   * A code-block line holding `tags: ` is dropped; the output loses its last
   * line as well exactly when the previous line is blank.
   */
  lemma CodeTagsDropped(c: Context, recs: seq<MarkdownLine>, i: nat, p: Pass)
    requires i < |recs| && recs[i].isCodeBlock && HasTagsMarker(recs[i].text)
    ensures Step(c, recs, i, p).Ok?
    ensures var o := Step(c, recs, i, p).value.out;
            o == p.out[..|o|]
            && (|o| < |p.out| <==> i >= 1 && Strip(p.prev) == "" && p.out != [])
            && |p.out| - 1 <= |o|
  {
  }

  /**
   * A Setext underline outside code replaces the last output line by a
   * heading built from the previous line: `# ` for `===`, `## ` for `---`,
   * when nothing else applies to that record.
   */
  lemma SetextHeading(c: Context, recs: seq<MarkdownLine>, i: nat, p: Pass)
    requires i < |recs| && !recs[i].isCodeBlock && !recs[i].isLastLine && !RemovedSection(recs[i])
    requires StartsWith(recs[i].text, "===") || StartsWith(recs[i].text, "---")
    requires !InsertsTags(c, recs, i, p)
    ensures var h := (if StartsWith(recs[i].text, "===") then "# " else "## ") + PrevText(recs, i, p);
            !HasTagsMarker(h) ==>
              Step(c, recs, i, p) == Ok(Pass(DropLast(p.out) + [LineRewrite(c, h)], LineRewrite(c, h)))
  {
  }

  /** A line of the old Backlinks section is not emitted: before the last record the output is left as it was. */
  lemma BacklinksSectionDropped(c: Context, r: MarkdownLine, out: seq<string>, text: string)
    requires RemovedSection(r) && !r.isLastLine
    ensures Finish(c, r, out, text) == Ok(Pass(out, LineRewrite(c, text)))
  {
  }

  /** Any other line that reaches the end of its iteration is emitted once, with its links rewritten. */
  lemma LineEmitted(c: Context, r: MarkdownLine, out: seq<string>, text: string)
    requires !RemovedSection(r) && !r.isLastLine
    ensures Finish(c, r, out, text) == Ok(Pass(out + [LineRewrite(c, text)], LineRewrite(c, text)))
  {
  }

  /** The separator keeps the output and leaves it ending in a blank line, adding at most two. */
  lemma SeparatorBlank(out: seq<string>)
    requires out != []
    ensures var o := out + Separator(out);
            o[..|out|] == out && o[|o| - 1] == "\n" && |o| <= |out| + 2
  {
    var sep := Separator(out);
    var o := out + sep;
    assert o[..|out|] == out;
    if out[|out| - 1] == "\n" {
      assert sep == [];
    } else {
      assert |sep| >= 1 && o[|o| - 1] == sep[|sep| - 1];
    }
  }

  lemma Concat3(a: seq<string>, h: seq<string>, d: seq<string>)
    requires |h| == 2
    ensures var x := a + h + d;
            |x| == |a| + 2 + |d| && x[..|a|] == a && x[|a|] == h[0] && x[|a| + 1] == h[1]
            && forall j :: 0 <= j < |d| ==> x[|a| + 2 + j] == d[j]
  {
  }

  /**
   * The Backlinks section lists each backlink once, in sorted order, under
   * its heading and a blank line, after the separator.
   */
  lemma BacklinkBlockShape(c: Context, out: seq<string>, b: set<string>)
    requires b != {}
    ensures var blk := BacklinkBlock(c, out, b);
            var ids := SortSet(b);
            var k := |Separator(out)|;
            |blk| == k + 2 + |b|
            && blk[..k] == Separator(out)
            && blk[k] == "## Backlinks\n" && blk[k + 1] == "\n"
            && forall j :: 0 <= j < |b| ==> blk[k + 2 + j] == "* " + FormatLink(c, ids[j]) + "\n"
  {
    var bl := Bullets(c, SortSet(b));
    assert BacklinkBlock(c, out, b) == Separator(out) + ["## Backlinks\n", "\n"] + bl;
    Concat3(Separator(out), ["## Backlinks\n", "\n"], bl);
  }

  /** A list ending in `s + t` ends in `t`. */
  lemma EndsInLast<T>(o: seq<T>, s: seq<T>, t: seq<T>)
    ensures EndsIn(o + (s + t), t)
  {
  }

  /** Appending the block for a non-empty set leaves the list ending with the Backlinks section. */
  lemma BlockEndsOutput(c: Context, o: seq<string>, b: set<string>)
    requires b != {}
    ensures EndsIn(o + BacklinkBlock(c, o, b), BacklinkSection(c, b))
  {
    EndsInLast(o, Separator(o), BacklinkSection(c, b));
  }

  /** After the last record, with the id in the graph, the output is the kept lines followed by the block. */
  lemma FinishLast(c: Context, r: MarkdownLine, out: seq<string>, text: string)
    requires r.isLastLine && c.note.nid in c.st.nodes
    ensures var o := if RemovedSection(r) then out else out + [LineRewrite(c, text)];
            Finish(c, r, out, text) == Ok(Pass(o + BacklinkBlock(c, o, Backlinks(c.st, c.note.nid).value), LineRewrite(c, text)))
  {
  }

  /** After the last record, when the id is in the graph and has backlinks, the output ends with the Backlinks heading, a blank line and the bullets. */
  lemma FinishAppendsBacklinks(c: Context, r: MarkdownLine, out: seq<string>, text: string)
    requires r.isLastLine && c.note.nid in c.st.nodes && Backlinks(c.st, c.note.nid).value != {}
    ensures Finish(c, r, out, text).Ok?
    ensures EndsIn(Finish(c, r, out, text).value.out, BacklinkSection(c, Backlinks(c.st, c.note.nid).value))
  {
    var b := Backlinks(c.st, c.note.nid).value;
    FinishLast(c, r, out, text);
    BlockEndsOutput(c, if RemovedSection(r) then out else out + [LineRewrite(c, text)], b);
  }

  /**
   * On the last record, when it is not cut short, the id is in the graph
   * and it has backlinks, the output ends with the new Backlinks section.
   */
  lemma LastStepAppendsBacklinks(c: Context, recs: seq<MarkdownLine>, i: nat, p: Pass)
    requires i < |recs| && recs[i].isLastLine && !CutShort(c, recs, i, p)
    requires c.note.nid in c.st.nodes && Backlinks(c.st, c.note.nid).value != {}
    ensures Step(c, recs, i, p).Ok?
    ensures EndsIn(Step(c, recs, i, p).value.out, BacklinkSection(c, Backlinks(c.st, c.note.nid).value))
  {
    var r := recs[i];
    var l := WithTags(c, recs, i, p, Headings(r, p.out, PrevText(recs, i, p)));
    if HasTagsMarker(l.text) && !r.isCodeBlock {
      var tags := c.tagger(ReadTags(l.text));
      FinishAppendsBacklinks(c, r, l.out, FormatTags(tags));
      assert Step(c, recs, i, p) == Finish(c, r, l.out, FormatTags(tags));
    } else {
      FinishAppendsBacklinks(c, r, l.out, l.text);
      assert Step(c, recs, i, p) == Finish(c, r, l.out, l.text);
    }
  }

  lemma DropLastIn(out: seq<string>, x: string)
    requires x in DropLast(out)
    ensures x in out
  {
  }

  /** Every line of the output after the Setext step and the tags insertion was there before, or is a blank or a tags line. */
  lemma WithTagsLines(c: Context, recs: seq<MarkdownLine>, i: nat, p: Pass, x: string)
    requires i < |recs|
    requires x in WithTags(c, recs, i, p, Headings(recs[i], p.out, PrevText(recs, i, p))).out
    ensures x in p.out || x == "\n" || StartsWith(x, "Tags: ")
  {
    var r := recs[i];
    var h := Headings(r, p.out, PrevText(recs, i, p));
    if x in h.out {
      if h.out != p.out {
        if x !in DropLast(p.out) {
          DropLastIn(DropLast(p.out), x);
        }
        DropLastIn(p.out, x);
      }
    } else {
      var f := FormatTags(c.tagger({}));
      assert x == "\n" || x == f;
      assert f == "Tags: " + (JoinWith(" ", Hashed(SortSet(c.tagger({})))) + "\n");
    }
  }

  /**
   * A record cut short adds no Backlinks section: every output line was
   * there before or is a blank line or an inserted tags line.
   */
  lemma CutShortAddsNoSection(c: Context, recs: seq<MarkdownLine>, i: nat, p: Pass)
    requires i < |recs| && CutShort(c, recs, i, p)
    ensures Step(c, recs, i, p).Ok?
    ensures forall x :: x in Step(c, recs, i, p).value.out ==> x in p.out || x == "\n" || StartsWith(x, "Tags: ")
  {
    var r := recs[i];
    forall x | x in Step(c, recs, i, p).value.out
      ensures x in p.out || x == "\n" || StartsWith(x, "Tags: ")
    {
      if r.isCodeBlock && HasTagsMarker(r.text) {
        if x !in p.out {
          DropLastIn(p.out, x);
        }
      } else {
        WithTagsLines(c, recs, i, p, x);
      }
    }
  }

  /** Before the last record the pass never fails. */
  lemma {:induction false} RunOkBeforeLast(c: Context, recs: seq<MarkdownLine>, k: nat)
    requires k < |recs| && LastMarked(recs)
    ensures Run(c, recs, k).Ok?
  {
    if k > 0 {
      RunOkBeforeLast(c, recs, k - 1);
      assert !recs[k - 1].isLastLine;
      RunOkStep(c, recs, k - 1);
    }
  }

  /** A pass that has not failed survives a record that is not the last. */
  lemma RunOkStep(c: Context, recs: seq<MarkdownLine>, j: nat)
    requires j < |recs| && Run(c, recs, j).Ok? && !recs[j].isLastLine
    ensures Run(c, recs, j + 1).Ok?
  {
    RunNext(c, recs, j);
    StepOkBeforeLast(c, recs, j, Run(c, recs, j).value);
  }

  /** Only the last record's step can fail. */
  lemma StepOkBeforeLast(c: Context, recs: seq<MarkdownLine>, i: nat, p: Pass)
    requires i < |recs| && !recs[i].isLastLine
    ensures Step(c, recs, i, p).Ok?
  {
  }

  /** The pass before the final record, which never fails. */
  function Penultimate(c: Context, recs: seq<MarkdownLine>): (p: Pass)
    requires recs != [] && LastMarked(recs)
    ensures Run(c, recs, |recs|) == Step(c, recs, |recs| - 1, p)
  {
    RunToLast(c, recs);
    Run(c, recs, |recs| - 1).value
  }

  /** The run up to the final record succeeds, and the whole run is one more step of it. */
  lemma RunToLast(c: Context, recs: seq<MarkdownLine>)
    requires recs != [] && LastMarked(recs)
    ensures Run(c, recs, |recs| - 1).Ok?
    ensures Run(c, recs, |recs|) == Step(c, recs, |recs| - 1, Run(c, recs, |recs| - 1).value)
  {
    RunOkBeforeLast(c, recs, |recs| - 1);
    RunNext(c, recs, |recs| - 1);
  }

  /**
   * `transform` raises exactly when the file is not empty, its last record
   * reaches the end of its iteration and the note's id is not in the graph.
   */
  lemma TransformErr(c: Context, lines: seq<string>)
    ensures TransformSpec(c, lines).Err? <==>
              lines != [] && c.note.nid !in c.st.nodes
              && !CutShort(c, Scan(lines), |lines| - 1, Penultimate(c, Scan(lines)))
  {
    var recs := Scan(lines);
    if lines != [] {
      StepErr(c, recs, |recs| - 1, Penultimate(c, recs));
    }
  }

  /** The last step's joined output ends with the Backlinks heading, a blank line and the bullets. */
  lemma LastStepJoinsBacklinks(c: Context, recs: seq<MarkdownLine>, p: Pass)
    requires recs != [] && recs[|recs| - 1].isLastLine && !CutShort(c, recs, |recs| - 1, p)
    requires c.note.nid in c.st.nodes && Backlinks(c.st, c.note.nid).value != {}
    ensures Step(c, recs, |recs| - 1, p).Ok?
    ensures var b := Backlinks(c.st, c.note.nid).value;
            EndsWith(Join(Step(c, recs, |recs| - 1, p).value.out), Join(BacklinkSection(c, b)))
  {
    LastStepAppendsBacklinks(c, recs, |recs| - 1, p);
    var b := Backlinks(c.st, c.note.nid).value;
    JoinSuffix(Step(c, recs, |recs| - 1, p).value.out, BacklinkSection(c, b));
  }

  /** After the last record the output ends with the Backlinks heading, a blank line and the bullets. */
  lemma RunEndsWithBacklinks(c: Context, recs: seq<MarkdownLine>)
    requires recs != [] && LastMarked(recs)
    requires c.note.nid in c.st.nodes && Backlinks(c.st, c.note.nid).value != {}
    requires !CutShort(c, recs, |recs| - 1, Penultimate(c, recs))
    ensures Run(c, recs, |recs|).Ok?
    ensures var b := Backlinks(c.st, c.note.nid).value;
            EndsWith(Join(Run(c, recs, |recs|).value.out), Join(BacklinkSection(c, b)))
  {
    LastStepJoinsBacklinks(c, recs, Penultimate(c, recs));
  }

  /** The joined text then ends with the Backlinks heading, a blank line and the bullets. */
  lemma TransformEndsWithBacklinks(c: Context, lines: seq<string>)
    requires lines != [] && c.note.nid in c.st.nodes && Backlinks(c.st, c.note.nid).value != {}
    requires !CutShort(c, Scan(lines), |lines| - 1, Penultimate(c, Scan(lines)))
    ensures TransformSpec(c, lines).Ok?
    ensures var b := Backlinks(c.st, c.note.nid).value;
            EndsWith(TransformSpec(c, lines).value, Join(BacklinkSection(c, b)))
  {
    RunEndsWithBacklinks(c, Scan(lines));
  }

  /** A list ending in `tail` joins to a text ending in the join of `tail`. */
  lemma JoinSuffix(o: seq<string>, tail: seq<string>)
    requires EndsIn(o, tail)
    ensures EndsWith(Join(o), Join(tail))
  {
    var h := o[..|o| - |tail|];
    assert o == h + tail;
    JoinAppend(h, tail);
    assert Join(o) == Join(h) + Join(tail);
  }

  // The tags line on a second pass.

  lemma {:induction false} LowerAppend(a: string, b: string)
    ensures Lower(a + b) == Lower(a) + Lower(b)
  {
    if a != [] {
      assert (a + b)[0] == a[0];
      assert (a + b)[1..] == a[1..] + b;
      LowerAppend(a[1..], b);
      assert [LowerChar(a[0])] + (Lower(a[1..]) + Lower(b)) == ([LowerChar(a[0])] + Lower(a[1..])) + Lower(b);
    } else {
      assert a + b == b;
    }
  }

  lemma {:induction false} JoinWithNoChar(sep: string, parts: seq<string>, ch: char)
    requires NoChar(sep, ch) && forall k :: 0 <= k < |parts| ==> NoChar(parts[k], ch)
    ensures NoChar(JoinWith(sep, parts), ch)
  {
    if |parts| > 1 {
      JoinWithNoChar(sep, parts[1..], ch);
    }
  }

  /** A formatted tags line holds neither `[` nor `"` when the tags do not. */
  lemma FormatTagsClean(tags: set<string>)
    requires forall t :: t in tags ==> NoChar(t, '[') && NoChar(t, '"')
    ensures NoChar(FormatTags(tags), '[') && NoChar(FormatTags(tags), '"')
  {
    var ts := SortSet(tags);
    var h := Hashed(ts);
    forall k | 0 <= k < |h|
      ensures NoChar(h[k], '[') && NoChar(h[k], '"')
    {
      assert ts[k] in tags;
      assert h[k] == "#" + ts[k];
      NoCharConcat("#", ts[k], '[');
      NoCharConcat("#", ts[k], '"');
    }
    var j := JoinWith(" ", h);
    JoinWithNoChar(" ", h, '[');
    JoinWithNoChar(" ", h, '"');
    assert FormatTags(tags) == "Tags: " + j + "\n";
    NoCharConcat("Tags: ", j, '[');
    NoCharConcat("Tags: " + j, "\n", '[');
    NoCharConcat("Tags: ", j, '"');
    NoCharConcat("Tags: " + j, "\n", '"');
  }

  /** A formatted tags line is recognised as a tags line. */
  lemma FormatTagsMarked(tags: set<string>)
    ensures HasTagsMarker(FormatTags(tags))
  {
    var rest := JoinWith(" ", Hashed(SortSet(tags))) + "\n";
    assert FormatTags(tags) == "Tags: " + rest;
    TagsMarkerAfter(rest);
  }

  /** A line starting with `Tags: ` holds the marker, whatever follows. */
  lemma TagsMarkerAfter(rest: string)
    ensures HasTagsMarker("Tags: " + rest)
  {
    LowerAppend("Tags: ", rest);
    assert Lower("Tags: ") == "tags: ";
    ContainsAt(Lower("Tags: " + rest), "tags: ", 0);
  }

  /**
   * The tags line is stable: with an idempotent tag transformer and tags
   * free of whitespace, `[` and `"`, the line a pass writes is again a tags
   * line on the next pass, reads back as the same tags, and is written the
   * same way.
   */
  lemma TagsLineStable(c: Context, text: string)
    requires c.tagger(ReadTags(text)) != {}
    requires forall t :: t in c.tagger(ReadTags(text)) ==> NoSpace(t) && NoChar(t, '[') && NoChar(t, '"')
    requires c.tagger(c.tagger(ReadTags(text))) == c.tagger(ReadTags(text))
    ensures var tags := c.tagger(ReadTags(text));
            var line := LineRewrite(c, FormatTags(tags));
            line == FormatTags(tags) && HasTagsMarker(line)
            && c.tagger(ReadTags(line)) == tags && LineRewrite(c, FormatTags(c.tagger(ReadTags(line)))) == line
  {
    var tags := c.tagger(ReadTags(text));
    var l := FormatTags(tags);
    FormatTagsClean(tags);
    FormatTagsMarked(tags);
    FormatTagsRoundTrip(tags);
  }

  // Where a second pass differs from the first.

  /**
   * A first line `## t` records the path `[t]`, of length one, and so does
   * a plain line after it: neither counts as a line of the old Backlinks
   * section, even when `t` is `Backlinks`. A pass keeps such a section and
   * appends a new one after it.
   */
  lemma LoneSectionKept(lines: seq<string>, t: string)
    requires |lines| >= 2 && lines[0] == "## " + t + "\n"
    requires t != [] && !IsSpace(t[0]) && !IsSpace(t[|t| - 1]) && NoChar(t, '\n')
    requires AtxMatch(lines[1]) == None && !IsUnderline(lines[1], '=') && !IsUnderline(lines[1], '-')
    requires |lines| > 2 ==> !IsUnderline(lines[2], '=') && !IsUnderline(lines[2], '-')
    ensures var recs := Scan(lines);
            recs[0].currentSection == [t] && recs[1].currentSection == [t]
            && !RemovedSection(recs[0]) && !RemovedSection(recs[1])
  {
    LevelTwoHeading(t);
    assert SectionBefore(lines, 1) == [t];
    assert SectionBefore(lines, 2) == [t];
    assert Scan(lines)[0] == RecordAt(lines, 0) && Scan(lines)[1] == RecordAt(lines, 1);
  }

  /** `## t` is a level-two heading with the text `t` when `t` has no newline and no whitespace at its ends. */
  lemma LevelTwoHeading(t: string)
    requires t != [] && !IsSpace(t[0]) && !IsSpace(t[|t| - 1]) && NoChar(t, '\n')
    ensures AtxMatch("## " + t + "\n") == Some((2, t))
  {
    var h := "## " + t + "\n";
    assert h[0] == '#' && h[1] == '#' && h[2] == ' ' && h[3] == t[0];
    assert HashCount(h) == 2;
    SpaceEndAt(h, 2, 3);
    AtxText(h, 2, 3);
    var w := h[3..];
    assert w == t + "\n" && w[..|t|] == t;
    FirstNewline(w, |t|);
    assert h[3..3 + |t|] == t;
    StripKeeps(t);
  }

  /** The first newline of `s` is at `k` when `k` holds one and no earlier position does. */
  lemma FirstNewline(s: string, k: nat)
    requires k < |s| && s[k] == '\n' && NoChar(s[..k], '\n')
    ensures IndexOf(s, '\n') == k
  {
  }

  /** Text that neither starts nor ends with whitespace is left alone by `strip`. */
  lemma StripKeeps(s: string)
    requires s != [] && !IsSpace(s[0]) && !IsSpace(s[|s| - 1])
    ensures Strip(s) == s
  {
    assert LStrip(s) == s;
  }

  /**
   * A `---` underline after a closing fence turns the fence into a
   * heading. The first pass reads the line after the underline outside
   * code; on the output, the opening fence is unclosed and that line is
   * inside code, where a tags line is dropped (`CodeTagsDropped`).
   */
  lemma FenceUnderlineOpensCode(lines: seq<string>, out: seq<string>)
    requires |lines| >= 4 && IsFence(lines[0]) && IsFence(lines[1]) && StartsWith(lines[2], "---")
    ensures var recs := Scan(lines);
            !recs[2].isCodeBlock && Headings(recs[2], out, lines[1]) == Line(DropLast(out), "## " + lines[1])
            && !recs[3].isCodeBlock && recs[3].text == lines[3]
    ensures var recs := Scan([lines[0], "## " + lines[1]] + lines[3..]);
            recs[2].isCodeBlock && recs[2].text == lines[3]
  {
    var second := [lines[0], "## " + lines[1]] + lines[3..];
    assert lines[2][0] == '-' && !IsFence(lines[2]);
    assert ("## " + lines[1])[0] == '#' && !IsFence(second[1]);
    assert !StartsWith(lines[2], "===");
    assert Scan(lines)[2] == RecordAt(lines, 2) && Scan(lines)[3] == RecordAt(lines, 3);
    assert second[0] == lines[0] && second[2] == lines[3];
    assert Scan(second)[2] == RecordAt(second, 2);
  }
}
