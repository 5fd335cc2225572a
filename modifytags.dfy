/**
 * The `zk_modify_tags` command: the tag transformer it hands to the
 * transformation of each named note, adding the `--add` tags and then
 * removing the `--remove` tags.
 */
module TagCommand {
  import opened Text
  import opened Notes
  import opened Transformer
  import opened Transform
  import opened Markdown
  import opened Wrappers

  /**
   * `tag_transformer`: a copy of `tags` with `add` joined in and `remove`
   * taken out, in that order. The argument is a value, so the caller's set
   * is never changed.
   */
  function ModifyTags(add: set<string>, remove: set<string>, tags: set<string>): (r: set<string>)
    ensures forall t :: t in r <==> (t in tags || t in add) && t !in remove
  {
    (tags + add) - remove
  }

  /** A tag named both to add and to remove ends up removed, since removal comes last. */
  lemma RemoveWins(add: set<string>, remove: set<string>, tags: set<string>)
    ensures forall t :: t in remove ==> t !in ModifyTags(add, remove, tags)
    ensures forall t :: t in add && t !in remove ==> t in ModifyTags(add, remove, tags)
  {
  }

  /** Applying the transformer a second time changes nothing. */
  lemma ModifyTagsIdempotent(add: set<string>, remove: set<string>, tags: set<string>)
    ensures ModifyTags(add, remove, ModifyTags(add, remove, tags)) == ModifyTags(add, remove, tags)
  {
  }

  /**
   * The whole effect of `zk_modify_tags` on a tags line outside code: the
   * line is dropped when adding and removing leaves no tags, and otherwise
   * becomes the `Tags: ` line of the modified tags.
   */
  lemma ModifyTagsStep(c: Context, add: set<string>, remove: set<string>, recs: seq<MarkdownLine>, i: nat, p: Pass)
    requires forall s :: c.tagger(s) == ModifyTags(add, remove, s)
    requires i < |recs| && !recs[i].isCodeBlock
    requires HasTagsMarker(WithTags(c, recs, i, p, Headings(recs[i], p.out, PrevText(recs, i, p))).text)
    ensures var l := WithTags(c, recs, i, p, Headings(recs[i], p.out, PrevText(recs, i, p)));
            var tags := ModifyTags(add, remove, ReadTags(l.text));
            (tags == {} ==> Step(c, recs, i, p) == Ok(Pass(l.out, l.text)))
            && (tags != {} && !recs[i].isLastLine && !RemovedSection(recs[i]) ==>
                  Step(c, recs, i, p) == Ok(Pass(l.out + [LineRewrite(c, FormatTags(tags))], LineRewrite(c, FormatTags(tags)))))
  {
    var l := WithTags(c, recs, i, p, Headings(recs[i], p.out, PrevText(recs, i, p)));
    assert c.tagger(ReadTags(l.text)) == ModifyTags(add, remove, ReadTags(l.text));
    TagsLineRule(c, recs, i, p);
  }

  /**
   * With this transformer, the tags line a pass writes is stable: the next
   * pass reads it back as the same tags and writes the same line, provided
   * the tags are free of `[` and `"`.
   */
  lemma ModifyTagsLineStable(c: Context, add: set<string>, remove: set<string>, text: string)
    requires forall s :: c.tagger(s) == ModifyTags(add, remove, s)
    requires ModifyTags(add, remove, ReadTags(text)) != {}
    requires forall t :: t in add ==> NoSpace(t)
    requires forall t :: t in ReadTags(text) + add ==> NoChar(t, '[') && NoChar(t, '"')
    ensures var tags := ModifyTags(add, remove, ReadTags(text));
            var line := LineRewrite(c, FormatTags(tags));
            line == FormatTags(tags) && HasTagsMarker(line)
            && ReadTags(line) == tags && LineRewrite(c, FormatTags(c.tagger(ReadTags(line)))) == line
  {
    var tags := ModifyTags(add, remove, ReadTags(text));
    forall t | t in tags
      ensures NoSpace(t)
    {
      if t !in add {
        assert t in ReadTags(text);
      }
    }
    assert c.tagger(ReadTags(text)) == tags;
    ModifyTagsIdempotent(add, remove, ReadTags(text));
    assert c.tagger(tags) == tags;
    TagsLineStable(c, text);
    FormatTagsRoundTrip(tags);
  }
}
