/**
 * The legacy note parser (zettel.py). Its identity pattern has no digit
 * guard, its title rule looks at lines starting with `# ` and its links are
 * every fourteen-digit run, bracketed or not.
 */
module Zettels {
  import opened Text
  import opened Ids
  import opened Paths
  import Notes

  /** `Zettel.get_zid`: the first fourteen-digit run of the file name (no guard), or else the whole name. */
  function GetZid(path: FilePath): (zid: string)
    ensures (forall q :: !PlainIdAt(path.name, q)) ==> zid == path.name
    ensures forall q :: PlainIdAt(path.name, q) && (forall j :: 0 <= j < q ==> !PlainIdAt(path.name, j)) ==>
              zid == path.name[q..q + IdLength]
  {
    var m := PlainIds(path.name);
    forall q | PlainIdAt(path.name, q) && (forall j :: 0 <= j < q ==> !PlainIdAt(path.name, j))
      ensures m != [] && m[0] == path.name[q..q + IdLength]
    {
      FirstPlainId(path.name, 0, q);
    }
    if |m| > 0 then m[0] else path.name
  }

  /**
   * The two identity rules differ on a name that starts with a run of `n`
   * digits, `n` more than fourteen: the legacy parser takes the first
   * fourteen of them, while no standalone id starts inside the run, so the
   * note parser finds its id after the run or keeps the whole name.
   */
  lemma {:induction false} ZidHeadOfLongerRun(p: FilePath, n: nat)
    requires IdLength < n <= |p.name| && AllDigits(p.name[..n])
    ensures GetZid(p) == p.name[..IdLength]
    ensures forall q :: 0 <= q < n ==> !StandaloneIdAt(p.name, q)
    ensures (forall q :: n <= q ==> !StandaloneIdAt(p.name, q)) ==> Notes.GetNid(p) == p.name
  {
    var s := p.name;
    forall j | 0 <= j < n
      ensures IsDigit(s[j])
    {
      assert s[..n][j] == s[j];
    }
    assert s[0..IdLength] == s[..IdLength];
    assert PlainIdAt(s, 0);
    forall q | 0 <= q < n
      ensures !StandaloneIdAt(s, q)
    {
      if q == 0 {
        assert IsDigit(s[IdLength]);
      } else {
        assert IsDigit(s[q - 1]);
      }
    }
  }

  /** For instance `123456789012345_x.md`: the legacy id is its first fourteen digits, the note's id the whole name. */
  lemma ZidAndNidDiffer()
    ensures var p := FilePath([], "123456789012345_x.md");
            GetZid(p) == "12345678901234" && Notes.GetNid(p) == p.name
  {
    var p := FilePath([], "123456789012345_x.md");
    assert p.name[..15] == "123456789012345";
    ZidHeadOfLongerRun(p, 15);
    assert p.name[..IdLength] == "12345678901234";
  }

  /** `line.split("# ")[1]` for a line starting with `# `: what lies between the first `# ` and the next one. */
  function SecondField(line: string): (f: string)
    requires StartsWith(line, "# ")
  {
    var rest := line[2..];
    rest[..Find(rest, "# ")]
  }

  /** The field holds no `# `, and the line is `# `, the field, then nothing or another `# `. */
  lemma SecondFieldShape(line: string)
    requires StartsWith(line, "# ")
    ensures var f := SecondField(line);
            !Contains(f, "# ")
            && line[..2 + |f|] == "# " + f
            && (2 + |f| == |line| || StartsWith(line[2 + |f|..], "# "))
  {
    var rest := line[2..];
    var k := Find(rest, "# ");
    var f := rest[..k];
    forall i | 0 <= i <= |f| - 2
      ensures !OccursAt(f, "# ", i)
    {
      assert !OccursAt(rest, "# ", i);
      assert rest[i..i + 2] == f[i..i + 2];
    }
    assert line[..2 + |f|] == line[..2] + rest[..k];
    if k < |rest| {
      assert line[2 + k..][..2] == rest[k..k + 2];
    }
  }

  /** One line's effect on the title: a line starting with `# ` sets it to its stripped second field. */
  function TitleStep(line: string, title: string): string
  {
    if StartsWith(line, "# ") then Strip(SecondField(line)) else title
  }

  /** The title after the first `k` lines, starting from `t0`. */
  function TitleUpTo(lines: seq<string>, k: nat, t0: string): (r: string)
    requires k <= |lines|
    ensures r == t0 || exists j :: 0 <= j < k && StartsWith(lines[j], "# ") && r == Strip(SecondField(lines[j]))
  {
    if k == 0 then t0 else TitleStep(lines[k - 1], TitleUpTo(lines, k - 1, t0))
  }

  /** The links of the first `k` lines: every plain fourteen-digit match, line by line. */
  function LinksUpTo(lines: seq<string>, k: nat): (r: seq<string>)
    requires k <= |lines|
    ensures forall x :: 0 <= x < |r| ==> |r[x]| == IdLength && AllDigits(r[x])
  {
    if k == 0 then [] else LinksUpTo(lines, k - 1) + PlainIds(lines[k - 1])
  }

  /** The title `analyze_file` leaves, starting from `t0`. */
  function ZettelTitle(lines: seq<string>, t0: string): (r: string)
    ensures r == t0 || exists j :: 0 <= j < |lines| && StartsWith(lines[j], "# ") && r == Strip(SecondField(lines[j]))
  {
    TitleUpTo(lines, |lines|, t0)
  }

  /** The links `analyze_file` leaves. */
  function ZettelLinks(lines: seq<string>): (r: seq<string>)
    ensures forall x :: 0 <= x < |r| ==> |r[x]| == IdLength && AllDigits(r[x])
  {
    LinksUpTo(lines, |lines|)
  }

  /** A parsed legacy note: `analyze_file` can be run again and rewrites the links and possibly the title. */
  class Zettel {
    var path: FilePath
    var zid: string
    var links: seq<string>
    var title: string

    /** `Zettel.__init__` with the file's lines given. */
    constructor (path: FilePath, lines: seq<string>)
      ensures this.path == path && zid == GetZid(path)
      ensures links == ZettelLinks(lines) && title == ZettelTitle(lines, "")
    {
      this.path := path;
      zid := GetZid(path);
      links := [];
      title := "";
      new;
      AnalyzeFile(lines);
    }

    /** `Zettel.analyze_file`: the links are rebuilt from nothing; the title is only overwritten by `# ` lines. */
    method AnalyzeFile(lines: seq<string>)
      modifies this
      ensures path == old(path) && zid == old(zid)
      ensures links == ZettelLinks(lines)
      ensures title == ZettelTitle(lines, old(title))
    {
      links := [];
      var i := 0;
      while i < |lines|
        invariant 0 <= i <= |lines|
        invariant path == old(path) && zid == old(zid)
        invariant links == LinksUpTo(lines, i)
        invariant title == TitleUpTo(lines, i, old(title))
      {
        var line := lines[i];
        if StartsWith(line, "# ") {
          title := Strip(SecondField(line));
        }
        links := links + PlainIds(line);
        assert title == TitleStep(line, TitleUpTo(lines, i, old(title)));
        i := i + 1;
      }
    }
  }

  /** The title is the stripped second field of the last line starting with `# `. */
  lemma {:induction false} ZettelTitleIsLast(lines: seq<string>, j: nat, k: nat, t0: string)
    requires j < k <= |lines| && StartsWith(lines[j], "# ")
    requires forall m :: j < m < k ==> !StartsWith(lines[m], "# ")
    ensures TitleUpTo(lines, k, t0) == Strip(SecondField(lines[j]))
  {
    if k > j + 1 {
      ZettelTitleIsLast(lines, j, k - 1, t0);
    }
  }

  /** Without a `# ` line the title is whatever it was before: `analyze_file` does not reset it. */
  lemma {:induction false} ZettelTitleKept(lines: seq<string>, k: nat, t0: string)
    requires k <= |lines|
    requires forall m :: 0 <= m < k ==> !StartsWith(lines[m], "# ")
    ensures TitleUpTo(lines, k, t0) == t0
  {
    if k > 0 {
      ZettelTitleKept(lines, k - 1, t0);
    }
  }

  /** Once some line starts with `# `, the title no longer depends on its starting value. */
  lemma {:induction false} ZettelTitleForgets(lines: seq<string>, k: nat, a: string, b: string)
    requires k <= |lines| && exists m :: 0 <= m < k && StartsWith(lines[m], "# ")
    ensures TitleUpTo(lines, k, a) == TitleUpTo(lines, k, b)
  {
    if !StartsWith(lines[k - 1], "# ") {
      ZettelTitleForgets(lines, k - 1, a, b);
    }
  }

  /** Running `analyze_file` a second time on the same lines leaves the same title. */
  lemma ZettelTitleStable(lines: seq<string>, t0: string)
    ensures ZettelTitle(lines, ZettelTitle(lines, t0)) == ZettelTitle(lines, t0)
  {
    var t1 := ZettelTitle(lines, t0);
    if exists m :: 0 <= m < |lines| && StartsWith(lines[m], "# ") {
      ZettelTitleForgets(lines, |lines|, t1, t0);
    } else {
      ZettelTitleKept(lines, |lines|, t0);
      ZettelTitleKept(lines, |lines|, t1);
    }
  }

  /** Every fourteen-digit run not preceded by a digit, on any line, bracketed or not, is among the links. */
  lemma {:induction false} ZettelLinkIncluded(lines: seq<string>, k: nat, j: nat, q: nat)
    requires j < k <= |lines| && PlainIdAt(lines[j], q) && (q == 0 || !IsDigit(lines[j][q - 1]))
    ensures lines[j][q..q + IdLength] in LinksUpTo(lines, k)
  {
    if j < k - 1 {
      ZettelLinkIncluded(lines, k - 1, j, q);
    } else {
      PlainIdFound(lines[j], 0, q);
    }
  }

  /** Each link token's id is a link of the legacy parser as well. */
  lemma TokenIdIsZettelLink(lines: seq<string>, j: nat, p: nat)
    requires j < |lines| && TokenAt(lines[j], p)
    ensures lines[j][p + 2..p + 16] in ZettelLinks(lines)
  {
    var s := lines[j];
    assert s[p + 2..p + 2 + IdLength] == s[p + 2..p + 16];
    ZettelLinkIncluded(lines, |lines|, j, p + 2);
  }
}
