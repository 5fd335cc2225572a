/**
 * The note parser (note.py): a note's identity comes from its file name;
 * its title, tags and outgoing links come from the scanner's records.
 */
module Notes {
  import opened Text
  import opened Ids
  import opened Markdown
  import opened Paths

  /**
   * A parsed note. The source builds it once in its constructor and never
   * changes these fields afterwards, so it is a value here.
   */
  datatype Note = Note(path: FilePath, nid: string, title: string, tags: set<string>, links: seq<string>)

  /** `Note.get_nid`: the first standalone run of fourteen digits in the file name, or else the whole name. */
  function GetNid(path: FilePath): (nid: string)
    ensures (exists p :: StandaloneIdAt(path.name, p)) ==>
              exists p :: StandaloneIdAt(path.name, p) && nid == path.name[p..p + IdLength]
                          && forall q :: StandaloneIdAt(path.name, q) ==> p <= q
    ensures (forall p :: !StandaloneIdAt(path.name, p)) ==> nid == path.name
  {
    var P := IdPositions(path.name);
    var runs := IdRuns(path.name);
    if |runs| > 0 then
      assert P[0] in P;
      forall q | StandaloneIdAt(path.name, q)
        ensures P[0] <= q
      {
        assert q in P;
      }
      runs[0]
    else path.name
  }

  /** The end of the run of non-whitespace characters that starts at `p`. */
  function WordEnd(line: string, p: nat): (e: nat)
    requires p <= |line|
    ensures p <= e <= |line| && forall j :: p <= j < e ==> !IsSpace(line[j])
    ensures e < |line| ==> IsSpace(line[e])
    decreases |line| - p
  {
    if p < |line| && !IsSpace(line[p]) then WordEnd(line, p + 1) else p
  }

  /** `tag_regex.findall(line)` from position `p`, each match without its leading `#`: `#\S*` is greedy, and the scan resumes after each match. */
  function TagWordsFrom(line: string, p: nat): (r: seq<string>)
    requires p <= |line|
    ensures forall k :: 0 <= k < |r| ==> NoSpace(r[k])
    decreases |line| - p
  {
    if p == |line| then []
    else if line[p] == '#' then
      var e := WordEnd(line, p + 1);
      [line[p + 1..e]] + TagWordsFrom(line, e)
    else TagWordsFrom(line, p + 1)
  }

  /** `Note._read_tags`: the set of words after each `#`. */
  function ReadTags(line: string): (r: set<string>)
    ensures forall t :: t in r ==> NoSpace(t)
  {
    var W := TagWordsFrom(line, 0);
    set k | 0 <= k < |W| :: W[k]
  }

  /** A `#` at the start of a word always opens a tag: the word after it is read as a tag. */
  lemma {:induction false} TagAtWordStart(line: string, from: nat, p: nat)
    requires from <= p < |line| && line[p] == '#'
    requires p == 0 || IsSpace(line[p - 1])
    ensures line[p + 1..WordEnd(line, p + 1)] in TagWordsFrom(line, from)
    decreases p - from
  {
    if from < p {
      if line[from] == '#' {
        var e := WordEnd(line, from + 1);
        assert p - 1 != from;
        assert e <= p - 1;
        TagAtWordStart(line, e, p);
      } else {
        TagAtWordStart(line, from + 1, p);
      }
    }
  }

  /** The same, for the set `_read_tags` returns. */
  lemma TagInReadTags(line: string, p: nat)
    requires p < |line| && line[p] == '#' && (p == 0 || IsSpace(line[p - 1]))
    ensures line[p + 1..WordEnd(line, p + 1)] in ReadTags(line)
  {
    TagAtWordStart(line, 0, p);
    var W := TagWordsFrom(line, 0);
    var k :| 0 <= k < |W| && W[k] == line[p + 1..WordEnd(line, p + 1)];
  }

  /** A tags line: outside code, and its lowercased, stripped text starts with `tags: `. */
  predicate IsTagsLine(r: MarkdownLine)
    ensures IsTagsLine(r) ==> !r.isCodeBlock && Contains(Lower(r.text), "tags: ")
  {
    if !r.isCodeBlock && StartsWith(Strip(Lower(r.text)), "tags: ") then
      StripStartContains(Lower(r.text), "tags: ");
      true
    else false
  }

  /** A line under a second-level heading called `backlinks` (any case, surrounding whitespace ignored). */
  predicate InBacklinks(r: MarkdownLine)
  {
    |r.currentSection| >= 2 && Strip(Lower(r.currentSection[1])) == "backlinks"
  }

  /** One record's effect on the title: a single-entry heading path overwrites it. */
  function TitleStep(r: MarkdownLine, title: string): string
  {
    if |r.currentSection| == 1 then r.currentSection[0] else title
  }

  /** One record's effect on the tags: a tags line replaces them. */
  function TagsStep(r: MarkdownLine, tags: set<string>): set<string>
  {
    if IsTagsLine(r) then ReadTags(r.text) else tags
  }

  /** One record's effect on the links: outside a backlinks section its link ids are appended. */
  function LinksStep(r: MarkdownLine, links: seq<string>): seq<string>
  {
    if InBacklinks(r) then links else links + LinkIds(r.text)
  }

  /** The title after the first `k` records. */
  function TitleAfter(recs: seq<MarkdownLine>, k: nat): string
    requires k <= |recs|
  {
    if k == 0 then "" else TitleStep(recs[k - 1], TitleAfter(recs, k - 1))
  }

  /** The tags after the first `k` records. */
  function TagsAfter(recs: seq<MarkdownLine>, k: nat): (r: set<string>)
    requires k <= |recs|
    ensures forall t :: t in r ==> NoSpace(t)
  {
    if k == 0 then {} else TagsStep(recs[k - 1], TagsAfter(recs, k - 1))
  }

  /** The links after the first `k` records. */
  function LinksAfter(recs: seq<MarkdownLine>, k: nat): (r: seq<string>)
    requires k <= |recs|
    ensures forall x :: 0 <= x < |r| ==> |r[x]| == IdLength && AllDigits(r[x])
  {
    if k == 0 then [] else LinksStep(recs[k - 1], LinksAfter(recs, k - 1))
  }

  /** The body of the analysis loop for one record. */
  method AnalyzeLine(md: MarkdownLine, title: string, tags: set<string>, links: seq<string>)
    returns (title': string, tags': set<string>, links': seq<string>)
    ensures title' == TitleStep(md, title) && tags' == TagsStep(md, tags) && links' == LinksStep(md, links)
  {
    title', tags', links' := title, tags, links;
    if |md.currentSection| == 1 {
      title' := md.currentSection[0];
    }
    if IsTagsLine(md) {
      tags' := ReadTags(md.text);
    }
    if !InBacklinks(md) {
      links' := links + LinkIds(md.text);
    }
  }

  /** `Note._analyze_file`: one pass over the records overwriting the title and the tags and extending the links. */
  method AnalyzeFile(recs: seq<MarkdownLine>) returns (title: string, tags: set<string>, links: seq<string>)
    ensures title == TitleAfter(recs, |recs|)
    ensures tags == TagsAfter(recs, |recs|)
    ensures links == LinksAfter(recs, |recs|)
  {
    title, tags, links := "", {}, [];
    var i := 0;
    while i < |recs|
      invariant 0 <= i <= |recs|
      invariant title == TitleAfter(recs, i)
      invariant tags == TagsAfter(recs, i)
      invariant links == LinksAfter(recs, i)
    {
      title, tags, links := AnalyzeLine(recs[i], title, tags, links);
      i := i + 1;
    }
  }

  /** The note the constructor builds from a path and the file's lines. */
  function NoteOf(path: FilePath, lines: seq<string>): (n: Note)
    ensures n.path == path && n.nid == GetNid(path)
    ensures forall t :: t in n.tags ==> NoSpace(t)
    ensures forall x :: 0 <= x < |n.links| ==> |n.links[x]| == IdLength && AllDigits(n.links[x])
  {
    var recs := Scan(lines);
    Note(path, GetNid(path), TitleAfter(recs, |recs|), TagsAfter(recs, |recs|), LinksAfter(recs, |recs|))
  }

  /** `Note.__init__` with the file's lines given: the id from the name, then one scan and one analysis pass. */
  method NewNote(path: FilePath, lines: seq<string>) returns (n: Note)
    ensures n == NoteOf(path, lines)
  {
    var nid := GetNid(path);
    var recs := FromLines(lines);
    var title, tags, links := AnalyzeFile(recs);
    n := Note(path, nid, title, tags, links);
  }

  /** The title is the first entry of the last single-entry heading path: later titles overwrite earlier ones. */
  lemma {:induction false} TitleIsLast(recs: seq<MarkdownLine>, j: nat, k: nat)
    requires j < k <= |recs| && |recs[j].currentSection| == 1
    requires forall m :: j < m < k ==> |recs[m].currentSection| != 1
    ensures TitleAfter(recs, k) == recs[j].currentSection[0]
  {
    if k > j + 1 {
      TitleIsLast(recs, j, k - 1);
    }
  }

  /** Without a single-entry heading path the title stays empty. */
  lemma {:induction false} TitleEmpty(recs: seq<MarkdownLine>, k: nat)
    requires k <= |recs|
    requires forall m :: 0 <= m < k ==> |recs[m].currentSection| != 1
    ensures TitleAfter(recs, k) == ""
  {
    if k > 0 {
      TitleEmpty(recs, k - 1);
    }
  }

  /** The tags are those of the last tags line: a later tags line replaces an earlier one. */
  lemma {:induction false} TagsAreLast(recs: seq<MarkdownLine>, j: nat, k: nat)
    requires j < k <= |recs| && IsTagsLine(recs[j])
    requires forall m :: j < m < k ==> !IsTagsLine(recs[m])
    ensures TagsAfter(recs, k) == ReadTags(recs[j].text)
  {
    if k > j + 1 {
      TagsAreLast(recs, j, k - 1);
    }
  }

  /** Without a tags line there are no tags; a tags line inside a code block does not count. */
  lemma {:induction false} TagsEmpty(recs: seq<MarkdownLine>, k: nat)
    requires k <= |recs|
    requires forall m :: 0 <= m < k ==> !IsTagsLine(recs[m])
    ensures TagsAfter(recs, k) == {}
  {
    if k > 0 {
      TagsEmpty(recs, k - 1);
    }
  }

  /** Every link id of a record outside a backlinks section is a link, code blocks included. */
  lemma {:induction false} LinkIncluded(recs: seq<MarkdownLine>, k: nat, j: nat, x: nat)
    requires j < k <= |recs| && !InBacklinks(recs[j]) && x < |LinkIds(recs[j].text)|
    ensures LinkIds(recs[j].text)[x] in LinksAfter(recs, k)
  {
    if j < k - 1 {
      LinkIncluded(recs, k - 1, j, x);
    } else {
      var L := LinksAfter(recs, k - 1);
      assert LinksAfter(recs, k)[|L| + x] == LinkIds(recs[j].text)[x];
    }
  }

  /** Every link comes from a record outside a backlinks section. */
  lemma {:induction false} LinkSource(recs: seq<MarkdownLine>, k: nat, y: string)
    requires k <= |recs| && y in LinksAfter(recs, k)
    ensures exists j :: 0 <= j < k && !InBacklinks(recs[j]) && y in LinkIds(recs[j].text)
  {
    if k > 0 {
      if y in LinksAfter(recs, k - 1) {
        LinkSource(recs, k - 1, y);
      } else {
        assert !InBacklinks(recs[k - 1]) && y in LinkIds(recs[k - 1].text);
      }
    }
  }
}
