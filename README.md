# verzettler note-graph engine in Dafny

A model of the core of verzettler, a Zettelkasten tool. A Zettelkasten is a
collection of Markdown notes. Each note is named by a fourteen-digit id and
links to other notes with `[[id]]` tokens. The model covers the following
parts.

- **The line scanner** (`Markdown`). It records, for every line of a
  note, whether it lies in a fenced code block, the heading path in force
  there, and whether it is the last line. The scanner follows the code, not
  CommonMark. For example, an `=` underline only counts when it has no
  trailing newline, and the underline rules apply inside code blocks too.
- **The two note parsers.**
  - `Notes` models `Note`, which uses the guarded id pattern. It reads the
    title from single-entry heading paths, the tags from the last tags
    line outside code, and the links from every `[[id]]` token outside a
    Backlinks section.
  - `Zettels` models the legacy `Zettel` class. It uses an unguarded id
    pattern, takes its title from `# ` lines and its links from every
    fourteen-digit run. Its `analyze_file` can be re-run on the object.
- **The collection** (`Kasten`, with the graph theory in `Graph`).
  - The table from id to note and the directed link graph are the fields
    of a class. The graph is a node set plus an edge set.
  - `add_notes` updates them in place and keeps an invariant: every link is
    an edge, and every node that is no stored note is the target of a link.
  - On top of that sit the queries: root, depth, backlinks, orphans, notes
    by depth, neighbours, tags, tag counts, lookup by path and the tiered
    search.
  - Depth is breadth-first distance. The layer `k` is defined, and proved,
    to hold the nodes reachable by a walk of at most `k` edges.
- **The rewrite of a note** (`Transformer`, `Transform`). It runs line by
  line over the scanner's records and builds the output list step by step:
  - it drops tags lines found in code;
  - it turns Setext headings into ATX headings;
  - it inserts or rewrites the tags line;
  - it strips old `"autogen"` link annotations and annotates every link token;
  - it drops the old Backlinks section and appends a fresh one.

  The loop body is a method over an array of line texts, which it rewrites
  in place. Its specification is a function over the records.
- **The command-line helpers.**
  - `IdCommands` models `get_id`, `get_ids` and `add_id`. The generated
    id is a parameter.
  - `TagCommand` models the add/remove tag transformer of
    `zk_modify_tags`.
  - `OpenCommand` models the `find` pattern, the splitting of `find`'s
    output and the action command of `zk_open`.
  - `Selection` models the ordering, early returns and answer handling of
    `get_path_selection`, with the typed answer as a parameter, and the
    completer.

### Where the code is followed

The rewrite in `note_transformer.py` reads several attributes that
`zettel.py` does not define: `autogen_link_regex`, `id_link_regex`, `zid`,
`tags` and `_read_tags`. `Note` defines all of them except `zid`, where it
has `nid`; the rewrite is modelled against `Note`, with `nid` standing in
for `zid`. As written, the two patterns are read from the `Zettel` class
itself, which lacks them, so the rewrite would raise `AttributeError`
(note_transformer.py:103,106); and passed a `Note`, the backlinks step
would raise it at its read of `zid` (note_transformer.py:125). A link token is the whole `[[` +
fourteen digits + `]]` string, which is what the group-less pattern of
`note.py:17` finds. `replace(link, ...)` is only meaningful for whole
tokens.

The pass takes its link rewrite from its context, as a `LinkRule`:
`AsWritten` rewrites each line as `note_transformer.py:102-112` does, and
`Corrected` uses the rewrite of the Findings below. Every statement about
the pass holds for both rules. With `AsWritten` the pass is
`transform` as written.

### Results stated as properties rather than findings

- `IdCommands.AddIdFindsNewId`: the renamed file is found again by
  `get_id` only when its base name does not end in a digit. After a digit,
  the new id merges into a longer digit run, and the new name still
  classifies as `"none"`.
- `Selection.Answer`: the re-prompt after a non-unique answer calls
  `get_path_selection` without the search term. Its reordering then calls
  `startswith(None)`, so the re-prompt fails with a `TypeError` as soon as
  there is a result.

## Model

| member | source | states |
|---|---|---|
| Markdown.AtxMatch | verzettler/markdown_reader.py:45-48 | A reported heading is a real match of the pattern on the line: its hashes, a whitespace run, then the text |
| Markdown.AtxMatchExact | verzettler/markdown_reader.py:45-46 | The ATX regular expression matches a line exactly when the model reports a heading, with the same number of hashes |
| Markdown.AtxText | verzettler/markdown_reader.py:47-48 | When text follows the whitespace after the hashes, the heading text is that text up to the first newline, stripped |
| Markdown.UpdateSection | verzettler/markdown_reader.py:44-65 | The heading path after one line, from the ATX rule (skipped in code), then the `=` and `-` underline rules that look one line ahead |
| Markdown.FromLines | verzettler/markdown_reader.py:37-81 | The scanner loop returns one record per line, in order, carrying that line's text. Only the final record is marked last. The records equal the scanner specification |
| Markdown.ScanLine | verzettler/markdown_reader.py:43-79 | One pass of the loop yields the record the scanner specification gives for line `i`, and the code flag and heading path in force before line `i + 1` |
| Markdown.Scan | verzettler/markdown_reader.py:41-42 | There are as many records as lines, and exactly the final one is marked as the last line |
| Markdown.CodeParity | verzettler/markdown_reader.py:76-79 | A line is read inside a code block exactly when an odd number of earlier lines start with three backticks |
| Markdown.ScanCodeParity | verzettler/markdown_reader.py:67-79 | Each record's code flag is that parity, i.e. the flag before the line is read |
| Markdown.AtxHeading | verzettler/markdown_reader.py:45-50 | An ATX heading outside code, with no underline after it, keeps the first (#count−1) entries. The new path is at most #count long and ends with the heading text |
| Markdown.ScanSection | verzettler/markdown_reader.py:44-74 | The path recorded for a line is the one computed from the state in force when that line is read |
| Markdown.CodeKeepsSection | verzettler/markdown_reader.py:46 | Inside a code block an ATX-looking line leaves the heading path unchanged |
| Markdown.EqualsUnderline | verzettler/markdown_reader.py:53-58 | A line followed by an `=` underline becomes the whole path, whatever the ATX rule or the code flag said |
| Markdown.DashUnderline | verzettler/markdown_reader.py:59-65 | A line followed by a `-` underline becomes `[path[0], line]`, and only when the path is non-empty |
| Markdown.NoUnderlineHeading | verzettler/markdown_reader.py:53-65 | For the last line, and for a line whose next line ends in a newline, the path is the ATX rule's alone: no underline applies |
| Ids.IdRunsExact | verzettler/note.py:15 | `findall` of the guarded id pattern reports exactly the standalone fourteen-digit runs, in order |
| Ids.NoIdInLongRun | verzettler/note.py:15 | An all-digit string of any length other than fourteen holds no standalone id |
| Ids.PlainIdsFrom | verzettler/zettel.py:11 | Every unguarded match is fourteen digits, and there is one exactly when fourteen digits start at or after the scan position |
| Ids.FirstPlainId | verzettler/zettel.py:29-31 | The first unguarded match is at the leftmost position where fourteen digits start |
| Ids.PlainIdFound | verzettler/zettel.py:44 | A fourteen-digit run not preceded by a digit is always reported by the unguarded scan |
| Ids.PlainIdsOfDigits | verzettler/zettel.py:44 | A run of n digits yields exactly n / 14 unguarded matches |
| Ids.TokensApart | verzettler/note.py:17 | Two link tokens never overlap |
| Ids.TokenFound | verzettler/note.py:17 | Every link token at or after the scan position is reported |
| Ids.LinkTokensFrom | verzettler/note.py:17 | Everything the group-less link pattern yields is a whole `[[id]]` token |
| Ids.LinkIdsOfTokens | verzettler/note.py:16-17 | The grouped pattern yields exactly the ids inside the tokens the group-less one finds |
| Ids.NoTokensWithoutBrackets | verzettler/note.py:16-17 | A string without `[[` has no link token |
| Ids.RemoveIdsNone | verzettler/zettelkasten.py:219 | Removing ids from a string that holds none leaves it unchanged |
| Notes.GetNid | verzettler/note.py:43-55 | The id is the first standalone fourteen-digit run of the file name, directories ignored. With no such run it is the whole name |
| Notes.TagWordsFrom | verzettler/note.py:18 | No word found after a `#` holds whitespace |
| Notes.ReadTags | verzettler/note.py:60-61 | No tag read from a line holds whitespace |
| Notes.IsTagsLine | verzettler/note.py:75-78 | A tags line is outside code, and its lowered text holds `tags: ` |
| Notes.NoteOf | verzettler/note.py:27-38 | A note keeps its path and has the id of its path. Its tags hold no whitespace and its links are fourteen digits each |
| Notes.TagAtWordStart | verzettler/note.py:60-61 | A `#` at the start of a word always yields the word after it as a tag |
| Notes.TagInReadTags | verzettler/note.py:60-61 | That word is in the set `_read_tags` returns |
| Notes.AnalyzeLine | verzettler/note.py:70-90 | One iteration overwrites the title and tags and extends the links as its record dictates |
| Notes.AnalyzeFile | verzettler/note.py:66-90 | The loop's title, tags and links are those of the whole record sequence |
| Notes.NewNote | verzettler/note.py:27-38 | A new note has the id of its path and the title, tags and links of one pass over its scanned lines |
| Notes.TitleIsLast | verzettler/note.py:71-74 | The title is the first entry of the last single-entry heading path |
| Notes.TitleEmpty | verzettler/note.py:71-74 | Without a single-entry heading path the title stays empty |
| Notes.TagsAreLast | verzettler/note.py:75-83 | The tags are those of the last tags line outside code, so a later one replaces an earlier one |
| Notes.TagsEmpty | verzettler/note.py:75-83 | Without a tags line outside code there are no tags |
| Notes.LinkIncluded | verzettler/note.py:84-90 | Every link token of a record outside a Backlinks section is a link, code blocks included |
| Notes.LinkSource | verzettler/note.py:84-90 | Every link comes from a record outside a Backlinks section |
| Zettels.GetZid | verzettler/zettel.py:25-33 | The id is the first unguarded fourteen-digit match of the name, or the whole name when there is none |
| Zettels.ZidHeadOfLongerRun | verzettler/zettel.py:26-31 | For every name starting with a run of more than fourteen digits, the legacy id is its first fourteen digits, while `Note` finds no id inside that run. With no standalone id after the run either, `Note` keeps the whole name |
| Zettels.ZidAndNidDiffer | verzettler/zettel.py:25-33 | On `123456789012345_x.md` the legacy id is `12345678901234` and the `Note` id is the whole name |
| Zettels.SecondFieldShape | verzettler/zettel.py:43 | `split("# ")[1]` is the text between the first `# ` and the next one or the end |
| Zettels.LinksUpTo | verzettler/zettel.py:44 | Every legacy link is fourteen digits |
| Zettels.Zettel.constructor | verzettler/zettel.py:13-20 | The new object has the path, the id of the path, and the links and title of one analysis from an empty title |
| Zettels.Zettel.AnalyzeFile | verzettler/zettel.py:37-44 | Re-analysis keeps path and id. It rebuilds the links from nothing and updates the title from its old value |
| Zettels.ZettelTitleIsLast | verzettler/zettel.py:42-43 | The title is the stripped second field of the last line starting with `# ` |
| Zettels.ZettelTitleKept | verzettler/zettel.py:37-43 | Without a `# ` line the title keeps its previous value |
| Zettels.ZettelTitleForgets | verzettler/zettel.py:42-43 | Once a `# ` line occurs, the title no longer depends on its previous value |
| Zettels.ZettelTitleStable | verzettler/zettel.py:37-43 | Analysing the same lines twice leaves the same title |
| Zettels.ZettelTitle | verzettler/zettel.py:37-43 | The title is the previous one or the stripped second field of some line starting with `# ` |
| Zettels.ZettelLinks | verzettler/zettel.py:39-44 | Every legacy link is fourteen digits |
| Zettels.ZettelLinkIncluded | verzettler/zettel.py:44 | Every fourteen-digit run not preceded by a digit is a link, bracketed or not |
| Zettels.TokenIdIsZettelLink | verzettler/zettel.py:44 | The id of every `[[id]]` token is a legacy link as well |
| Graph.WithinWalk | verzettler/zettelkasten.py:51-55 | BFS layer k holds exactly the ends of walks from the root with at most k edges |
| Graph.WithinNodes | verzettler/zettelkasten.py:51-55 | In a closed graph the layers stay inside the node set |
| Graph.BfsFromSpec | verzettler/zettelkasten.py:51-55 | The search finds the first layer holding the node, or reports that the layer numbered by the node count does not hold it |
| Graph.DistShortest | verzettler/zettelkasten.py:51-55 | The distance is the length of a shortest walk. No distance means no walk at all |
| Graph.DepthZero | verzettler/zettelkasten.py:51-55 | Depth is 0 for the root and for every node it cannot reach |
| Graph.DepthOne | verzettler/zettelkasten.py:67-72 | Depth 1 means a direct edge from the root to a node other than the root |
| Kasten.AddNoteValid | verzettler/zettelkasten.py:249-255 | Adding one note preserves the collection invariant |
| Kasten.AddAllValid | verzettler/zettelkasten.py:249-255 | `add_notes` preserves the collection invariant |
| Kasten.AddAllGrows | verzettler/zettelkasten.py:252-253 | Every added id is a node and a stored key, and no node or edge is lost |
| Kasten.AddAllLinks | verzettler/zettelkasten.py:254-255 | Every link of an added note is an edge, whether or not it names a stored note |
| Kasten.AddAllLast | verzettler/zettelkasten.py:252 | An added id maps to the last note added with it: a later note with the same id overwrites an earlier one |
| Kasten.AddAllKeeps | verzettler/zettelkasten.py:252 | An id that no added note has keeps the note it had |
| Kasten.AddAllOrderPrefix | verzettler/zettelkasten.py:252 | The old insertion order is a prefix of the new one: adding only appends |
| Kasten.AddAllOrder | verzettler/zettelkasten.py:252 | An id is in the new insertion order exactly when it was there before or some added note has it |
| Kasten.Root | verzettler/zettelkasten.py:75-77 | The root fails exactly on an empty graph. Otherwise it is the least node in string order, dangling targets included |
| Kasten.GetDepth | verzettler/zettelkasten.py:130-131 | Depth is the shortest-walk distance from the root, 0 when unreachable. Only an empty graph fails |
| Kasten.Backlinks | verzettler/zettelkasten.py:127-128 | The backlinks are exactly the nodes with an edge into the id. An id that is no node fails |
| Kasten.BacklinksOfLinks | verzettler/zettelkasten.py:127-128 | Every stored note linking to an id is among its backlinks |
| Kasten.OrphanNodes | verzettler/zettelkasten.py:29-31 | The orphan nodes are exactly the nodes without predecessors |
| Kasten.Orphans | verzettler/zettelkasten.py:133-138 | The orphans are the stored notes of the orphan nodes other than the root. A failure is a key error for an orphan node with no note |
| Kasten.OrphansStored | verzettler/zettelkasten.py:133-138 | In a valid collection every orphan node is a stored note, so `get_orphans` never fails |
| Kasten.NotesOf | verzettler/zettelkasten.py:123-125 | `_nids2notes` keeps the notes of the ids that are stored and skips the rest |
| Kasten.DepthGroups | verzettler/zettelkasten.py:58-63 | The depth groups are non-empty, and every node lies in the group of its depth |
| Kasten.DepthGroupsPartition | verzettler/zettelkasten.py:58-63 | Every node lies in exactly one group |
| Kasten.NodesByDepth | verzettler/zettelkasten.py:140-166 | With no root given, the graph's root is used, which fails on an empty graph. A given root that is no node fails when the graph is not empty |
| Kasten.ByDepthViews | verzettler/zettelkasten.py:140-166 | Both views fail exactly when the groups do. Each lists the depths that occur, with their stored notes or with their node counts, dangling targets included |
| Kasten.Neighbors | verzettler/zettelkasten.py:168-169 | The neighbours are the stored notes at depth 1 to k below the id. An empty graph gives none. An id that is no node fails otherwise |
| Kasten.NeighborsWithin | verzettler/zettelkasten.py:66-72 | Depth 1 to k means reachable in at most k steps and not the start itself |
| Kasten.NeighborsOne | verzettler/zettelkasten.py:168-169 | With k = 1 the neighbours are the stored notes linked to directly, the start excluded |
| Kasten.AllTags | verzettler/zettelkasten.py:34-39 | A tag is in the union exactly when some stored note holds it |
| Kasten.Categories | verzettler/zettelkasten.py:106-108 | The categories are exactly the stored tags starting with `c_` |
| Kasten.Get | verzettler/zettelkasten.py:310-311 | Lookup gives the stored note, or a key error for a missing id |
| Kasten.GetOwnId | verzettler/zettelkasten.py:310-311 | In a valid collection a stored note is found under its own id |
| Kasten.Has | verzettler/zettelkasten.py:313-314 | `in` holds exactly when lookup by the id succeeds |
| Kasten.Len | verzettler/zettelkasten.py:319-320 | The length is 0 exactly when no id is stored |
| Kasten.LenIsOrder | verzettler/zettelkasten.py:319-320 | The number of stored notes is the length of the insertion order |
| Kasten.NotesList | verzettler/zettelkasten.py:94-96 | `notes` lists every stored note once, in insertion order |
| Kasten.GetByPath | verzettler/zettelkasten.py:177-182 | A successful lookup by path gives a stored note with that file name |
| Kasten.GetByPathUnique | verzettler/zettelkasten.py:177-182 | Lookup by path succeeds exactly when one stored note has that file name, and then returns it |
| Kasten.TierMembers | verzettler/zettelkasten.py:214-240 | Each search tier holds exactly the notes matching it, in order |
| Kasten.Tier | verzettler/zettelkasten.py:214-240 | A tier holds no more notes than the list, each of them a listed note matching that tier |
| Kasten.Tiers | verzettler/zettelkasten.py:213-240 | Every note of the three tiers is a listed note that matches exactly, by prefix or by substring |
| Kasten.TiersUpToMembers | verzettler/zettelkasten.py:213-240 | The tiers before tier k open the concatenation and hold exactly the listed notes matching an earlier tier |
| Kasten.CountTags | verzettler/zettelkasten.py:45-47 | One note adds one to each of its tags and leaves other counts alone |
| Kasten.TiersMembers | verzettler/zettelkasten.py:213-244 | The deduplicated tiers hold each note matching some tier exactly once |
| Kasten.TiersBefore | verzettler/zettelkasten.py:213-244 | A note of an earlier tier comes before every note that only matches later tiers |
| Kasten.GetTags | verzettler/zettelkasten.py:34-39 | The accumulated set holds exactly the tags of the notes |
| Kasten.TagCountDistinct | verzettler/zettelkasten.py:42-48 | Over distinct notes, a tag's count is the number of notes holding it |
| Kasten.CountAllTags | verzettler/zettelkasten.py:42-48 | The counts have a key for exactly the tags that occur, each with the number of notes holding it |
| Kasten.SearchFound | verzettler/zettelkasten.py:213-244 | An ordinary term finds each matching stored note once: exact matches first, then prefix, then substring |
| Kasten.SearchId | verzettler/zettelkasten.py:195-196 | An id term gives the one note stored under it, or a key error |
| Kasten.SearchSpec | verzettler/zettelkasten.py:184-244 | The search fails exactly for an id term with no stored note, with a key error for it. It takes the regular-expression branch exactly for other terms holding `*`, `^` or `$`. Otherwise it finds distinct stored notes |
| Kasten.Zettelkasten.constructor | verzettler/zettelkasten.py:81-85 | The new collection is valid and holds what `add_notes` of the given notes gives on an empty one |
| Kasten.Zettelkasten.AddNotes | verzettler/zettelkasten.py:249-255 | The state becomes the `add_notes` specification of the old state, and stays valid |
| Kasten.Zettelkasten.AddNext | verzettler/zettelkasten.py:250-255 | One pass of the loop moves the state from the specification after `i` notes to the one after `i + 1` |
| Kasten.Zettelkasten.AddNote | verzettler/zettelkasten.py:250-255 | One note is stored under its id, its node added, and an edge to each link |
| Kasten.Zettelkasten.AddLinks | verzettler/zettelkasten.py:254-255 | One edge per link is added, creating missing target nodes |
| Kasten.Zettelkasten.Tags | verzettler/zettelkasten.py:98-100 | `tags` is the union of the stored notes' tags |
| Kasten.Zettelkasten.TagCounts | verzettler/zettelkasten.py:102-104 | `tag_counts` maps each stored tag to the number of stored notes holding it |
| Kasten.Zettelkasten.Search | verzettler/zettelkasten.py:184-244 | The search result equals the search specification of the current state |
| Lists.DedupBefore | verzettler/zettelkasten.py:244 | Deduplication keeps first occurrences in order |
| Paths.Stem | verzettler/zettelkasten.py:219 | The stem is a prefix of the name. When shorter, it is non-empty and ends right before the last `.`, and no `.` follows that one |
| Transformer.FormatTagsWords | verzettler/note_transformer.py:44-46 | The tags line reads back as the sorted tags |
| Transformer.FormatTagsRoundTrip | verzettler/note_transformer.py:44-46 | Formatting tags without whitespace and reading the line back with `_read_tags` gives the same set |
| Transformer.FormatTags | verzettler/note_transformer.py:44-46 | The tags line starts with `Tags: `, has more after it and ends in a newline |
| Transformer.FormatLink | verzettler/note_transformer.py:48-58 | The link starts with the token, and carries an annotation exactly when the id is stored. It never fails |
| Transformer.AnnotationMatched | verzettler/note.py:19 | An annotation with a clean title and path is matched exactly by the autogen pattern |
| Transformer.StripNone | verzettler/note_transformer.py:103 | Stripping text with no autogen match changes nothing |
| Transformer.StripFragments | verzettler/note_transformer.py:103 | Text without `"` holds no autogen annotation and is left unchanged |
| Transformer.Annotate | verzettler/note_transformer.py:106-112 | Annotating never shortens a line, and a line without `[` is left unchanged |
| Transformer.Rewrite | verzettler/note_transformer.py:102-112 | The corrected rewrite leaves a line without `[` and `"` unchanged |
| Transformer.ReplaceTokens | verzettler/note_transformer.py:107-112 | Replacing the tokens one after the other never shortens a line, and a line without `[` is left unchanged |
| Transformer.RewriteAsWritten | verzettler/note_transformer.py:102-112 | As written, the rewrite leaves a line without `[` and `"` unchanged |
| Transformer.LineRewrite | verzettler/note_transformer.py:102-112 | The pass rewrites a line as written or corrected, as its context says. Either way a line without `[` and `"` is left unchanged |
| Transformer.StripAnnotate | verzettler/note_transformer.py:102-112 | On text without matches, stripping removes exactly the annotations just added (clean titles and paths) |
| Transformer.RewriteIdempotent | verzettler/note_transformer.py:102-112 | The link rewrite is idempotent once stripping leaves no match, for titles without `]` and paths without `)`, `"` or `[` |
| Transformer.RewriteFresh | verzettler/note_transformer.py:102-112 | A line without any match is rewritten idempotently |
| Transformer.AsWrittenSwallowsLink | verzettler/note_transformer.py:102-112 | As written, a second pass deletes a line ending in ` [a](` and a link |
| Transformer.GuardedKeepsLink | verzettler/note_transformer.py:102-112 | The corrected rewrite leaves that line alone on the second pass |
| Transformer.AsWrittenDoublesRepeat | verzettler/note_transformer.py:106-112 | As written, a link repeated on a line gets two annotations after each copy |
| Transformer.GuardedAnnotatesRepeatOnce | verzettler/note_transformer.py:106-112 | The corrected rewrite annotates each copy once |
| Transform.DropLast | verzettler/note_transformer.py:70 | The result is a prefix of the output; putting the dropped line back restores the output, and an empty output stays empty |
| Transform.Separator | verzettler/note_transformer.py:127-132 | No blank line after an empty output or a blank last line, one after a last line ending in a newline, two otherwise |
| Transform.SeparatorBlank | verzettler/note_transformer.py:127-132 | The separator keeps the output, ends it with a blank line, and adds at most two |
| Transform.Bullets | verzettler/note_transformer.py:134-135 | One bullet per backlink, in the given order: bullet k starts with `* ` and the k-th id's `[[id]]` token, and ends the line |
| Transform.BacklinkBlockShape | verzettler/note_transformer.py:133-135 | The new section lists each backlink once, sorted, under `## Backlinks` and a blank line |
| Transform.Finish | verzettler/note_transformer.py:100-135 | For either link rule: the end of an iteration fails exactly on the last record when the note's id is no node; otherwise the line's text becomes its links rewritten by the context's rule |
| Transform.CodeTagsOut | verzettler/note_transformer.py:68-71 | The last output line is removed exactly when there is a previous input line and it is blank; otherwise the output is kept |
| Transform.Headings | verzettler/note_transformer.py:74-79 | Outside code, `===` drops the last output line and gives `# ` plus the previous line, and `---` does the same with `## `. Any other line is kept |
| Transform.TagsLine | verzettler/note_transformer.py:93-98 | The tags step and the rest of the iteration fail only on the last record whose id is no node, with that error; what it emits is stated by Transform.TagsLineRule |
| Transform.TagsLineRule | verzettler/note_transformer.py:93-98 | A non-code tags line is dropped when the tag transformer returns no tags, and otherwise replaced by `_format_tags` of its result, link-rewritten and emitted (outside the old Backlinks section, before the last record) |
| Transform.Step | verzettler/note_transformer.py:64-135 | For either link rule, an iteration fails only on the last record, when the note's id is no node, with that error |
| Transform.Run | verzettler/note_transformer.py:61-135 | For either link rule, a pass fails only with the missing-node error for the note's id |
| Transform.TransformSpec | verzettler/note_transformer.py:60-137 | For either link rule, the rewrite fails only with the missing-node error for the note's id |
| Transform.HeadingsInPlace | verzettler/note_transformer.py:74-79 | The in-place Setext step writes the heading into the array and matches its specification |
| Transform.FinishInPlace | verzettler/note_transformer.py:100-135 | The in-place end of an iteration matches its specification, under the context's link rule. Only the current line's text changes |
| Transform.ProcessLine | verzettler/note_transformer.py:65-135 | The loop body on the array gives the specified step's result, under the context's link rule. It fails exactly when the step does |
| Transform.RunErrStays | verzettler/note_transformer.py:124-125 | Once the pass has failed it stays failed |
| Transform.Transform | verzettler/note_transformer.py:60-137 | The loop over the records returns the specified output, under the context's link rule. With `AsWritten` this is `transform` as written |
| Transform.StepErr | verzettler/note_transformer.py:124-126 | An iteration fails exactly when it finishes the last record and the note's id is no node |
| Transform.CodeTagsDropped | verzettler/note_transformer.py:68-71 | A code-block tags line is dropped. The last output line goes too exactly when the previous line is blank |
| Transform.SetextHeading | verzettler/note_transformer.py:74-79 | A Setext underline replaces the last output line by `# ` or `## ` plus the previous line |
| Transform.BacklinksSectionDropped | verzettler/note_transformer.py:114-121 | A line of the old Backlinks section is not emitted |
| Transform.LineEmitted | verzettler/note_transformer.py:119-121 | Any other line that finishes its iteration is emitted once, with its links rewritten |
| Transform.FinishAppendsBacklinks | verzettler/note_transformer.py:124-135 | After the last record, with backlinks, the output ends with the heading, a blank line and the sorted bullets |
| Transform.LastStepAppendsBacklinks | verzettler/note_transformer.py:124-135 | A last record not cut short ends the output with the new Backlinks section |
| Transform.WithTagsLines | verzettler/note_transformer.py:74-90 | After the Setext step and tags insertion, every output line was there before or is blank or a tags line |
| Transform.CutShortAddsNoSection | verzettler/note_transformer.py:68-97 | A record cut short by `continue` appends no Backlinks section |
| Transform.RunOkBeforeLast | verzettler/note_transformer.py:124-125 | The pass never fails before the last record |
| Transform.TransformErr | verzettler/note_transformer.py:124-137 | `transform` fails exactly when the file is non-empty, its last record finishes its iteration and the note's id is no node |
| Transform.RunEndsWithBacklinks | verzettler/note_transformer.py:124-135 | With backlinks, the final output list ends with the new Backlinks section |
| Transform.TransformEndsWithBacklinks | verzettler/note_transformer.py:124-137 | The returned text ends with the joined Backlinks section |
| Transform.FormatTagsClean | verzettler/note_transformer.py:44-46 | A formatted tags line holds no `[` or `"` when the tags do not |
| Transform.FormatTagsMarked | verzettler/note_transformer.py:93 | A formatted tags line is recognised as a tags line on the next pass |
| Transform.TagsLineStable | verzettler/note_transformer.py:93-98 | With an idempotent tag transformer and clean tags, the written tags line reads back as the same tags and is rewritten to itself |
| Transform.TagsMarkerAfter | verzettler/note_transformer.py:93 | Any text after `Tags: ` still makes a tags line |
| Transform.LevelTwoHeading | verzettler/markdown_reader.py:45-48 | `## ` plus a trimmed one-line text is a level-2 ATX heading with that text |
| Transform.LoneSectionKept | verzettler/note_transformer.py:114-117 | When a note opens with `## t` and no underline follows, its first two lines have the heading path `[t]`, so they are not lines of an old Backlinks section and the pass keeps them |
| Transform.FenceUnderlineOpensCode | verzettler/note_transformer.py:74-79 | Two fences and a `---` line: the first pass reads the `---` outside code and makes the second fence a `## ` heading. On the next pass the line after the heading is inside code, so a second pass differs from the first |
| IdCommands.GetId | verzettler/bin/zk_get_id.py:12-19 | `"none"` iff there is no standalone id, `"many"` iff there are two or more. Otherwise it is the single id |
| IdCommands.GetIds | verzettler/bin/zk_get_id.py:22-23 | `get_ids` keeps the length, and its k-th answer is `get_id` of the k-th string |
| IdCommands.GetIdsAppend | verzettler/bin/zk_get_id.py:22-23 | `get_ids` distributes over concatenation, so it works element by element in order |
| IdCommands.LongRunIsNone | verzettler/bin/zk_get_id.py:13-15 | A digit run longer or shorter than fourteen classifies as `"none"` |
| IdCommands.BaseName | verzettler/bin/zk_add_id.py:19-22 | The base is the name without a final `.md`, or the whole name |
| IdCommands.AddId | verzettler/bin/zk_add_id.py:15-30 | No id: same directory, base + id + `.md`. Several ids: unchanged. One id: nothing |
| IdCommands.AddIdFindsNewId | verzettler/bin/zk_add_id.py:17-23 | The new name classifies as the new id, unless the base ends in a digit, in which case it classifies as `"none"` |
| TagCommand.ModifyTags | verzettler/bin/zk_modify_tags.py:39-43 | A tag is in the result iff it was in the tags or added, and not removed |
| TagCommand.RemoveWins | verzettler/bin/zk_modify_tags.py:41-42 | A tag both added and removed ends up removed |
| TagCommand.ModifyTagsIdempotent | verzettler/bin/zk_modify_tags.py:41-42 | Applying the transformer twice equals applying it once |
| TagCommand.ModifyTagsStep | verzettler/bin/zk_modify_tags.py:39-43 | With the add/remove transformer, a non-code tags line is dropped when no tags remain, and otherwise becomes the `Tags: ` line of the modified tags |
| TagCommand.ModifyTagsLineStable | verzettler/bin/zk_modify_tags.py:39-43 | With this transformer, the rewritten tags line is stable on the next pass |
| OpenCommand.GlobMatch | verzettler/bin/zk_open.py:32 | A pattern without `*` matches only the name equal to it |
| OpenCommand.LiteralMatch | verzettler/bin/zk_open.py:32 | A pattern without `*` matches exactly itself |
| OpenCommand.StarSuffix | verzettler/bin/zk_open.py:32 | `*` then a literal matches exactly the names ending in it |
| OpenCommand.SearchPatternAsWritten | verzettler/bin/zk_open.py:22-29 | As written, every pattern ends in `.md` except for a `*` term not ending in `*`, which is used as given. A term ending in `.md` gives a pattern that misses the file named by the term |
| OpenCommand.SearchPattern | verzettler/bin/zk_open.py:22-29 | Corrected: the same shapes, and a term without `*` ending in `.md` matches the file named by the term |
| OpenCommand.AsWrittenDoublesSuffix | verzettler/bin/zk_open.py:25-26 | As written, a `.md` term gets a second `.md` and misses the file named by the term |
| OpenCommand.SearchPatternSuffix | verzettler/bin/zk_open.py:25-26 | Corrected: a `.md` term finds exactly the names ending in it, itself included |
| OpenCommand.SearchPatternContains | verzettler/bin/zk_open.py:22-24 | Any other term without `*` finds exactly the names holding it followed by `.md` at the end |
| OpenCommand.SearchPatternFindsMarkdown | verzettler/bin/zk_open.py:27-29 | A term ending in `*` or without `*` only finds `.md` names; any other `*` term is used as given |
| OpenCommand.DropNewlinesEmpty | verzettler/bin/zk_open.py:40 | Deleting the newlines leaves nothing exactly when the text is only newlines |
| OpenCommand.SearchResults | verzettler/bin/zk_open.py:35-43 | No results iff the output is blank. Otherwise the results joined by newlines give the stripped output, and none holds a newline |
| OpenCommand.ActionCommand | verzettler/bin/zk_open.py:65-68 | The command always contains the path. An action without `{file}` runs as the action, a blank and the path |
| Selection.InsertByName | verzettler/cli_util.py:124-129 | Inserting keeps the list sorted by name and adds exactly the one path |
| Selection.SortByName | verzettler/cli_util.py:124-129 | Sorting gives a permutation sorted by name |
| Selection.WithPrefix | verzettler/cli_util.py:125 | The first group holds exactly the results whose name starts with the term |
| Selection.WithoutPrefix | verzettler/cli_util.py:127 | The second group holds exactly the others |
| Selection.PrefixPartition | verzettler/cli_util.py:124-129 | The two groups together are a permutation of the results |
| Selection.Reorder | verzettler/cli_util.py:124-129 | The reordering is a permutation where prefixed names come first, and each group is sorted by name |
| Selection.ReorderFirst | verzettler/cli_util.py:131-134 | The first reordered result is a result, prefixed when any is, and least in its group |
| Selection.Item | verzettler/cli_util.py:152 | Python indexing succeeds exactly for −len ≤ i < len, counting from the end when negative. Otherwise it is an index error |
| Selection.Answer | verzettler/cli_util.py:147-167 | An answer picks one of the results. It fails only with an index error or the re-prompt's type error |
| Selection.AnswerNumber | verzettler/cli_util.py:147-152 | A numeric answer picks that entry, and fails past the end |
| Selection.AnswerNegative | verzettler/cli_util.py:147-152 | `-n` picks the n-th entry from the end, and fails past the start |
| Selection.AnswerText | verzettler/cli_util.py:156-167 | Text held by exactly one name picks it. Otherwise the re-prompt's `startswith(None)` fails |
| Selection.PathSelection | verzettler/cli_util.py:104-167 | No results give nothing. Without a term it fails. One result or `lucky` gives the first reordered result. A chosen path is always a result |
| Selection.Options | verzettler/cli_util.py:94 | Every offered name is a result name holding the text, every such name is offered, and there are no more offers than results |
| Selection.Holding | verzettler/cli_util.py:94 | The results kept are results whose name holds the text, and every such result is kept |
| Selection.OptionsInOrder | verzettler/cli_util.py:94 | The offers are exactly the names of the results holding the text, in the order of the results, one per result |
| Selection.Completer | verzettler/cli_util.py:93-98 | State `k` gives nothing exactly when `k` is at least the number of results holding the text; otherwise it gives the `k`-th such name |
| Selection.CompleterEnumerates | verzettler/cli_util.py:93-98 | States 0, 1, 2, … enumerate exactly those names, then nothing |

## Left out

- Reading and writing files is not modelled. A note's lines are a parameter. `MarkdownReader.from_file`, `transform_write`, `add_notes_from_directory` (`os.walk`) and `apply_converter` are left out.
- The `shutil.move` of `zk_add_id` and the clock read `generate_zid` are not modelled. The new id is a parameter.
- The `find` and shell subprocesses of `zk_open` are not modelled. `find`'s output is a parameter, and only `*` is modelled in its patterns, not `?` or `[...]` classes.
- `os.path.relpath` is a function supplied with the rewrite context.
- The terminal listing, colours, readline registration and `input` of `get_path_selection` are not modelled. The typed answer is a parameter of type `Option`: `None` stands for an interrupted prompt, where `input` raises.
- `str.format` in the action command is modelled for the `{file}` field only. Other braces in the action are copied as they are.
- Logging, including the warnings for several titles or tags, is not modelled. The `print` in `search` is not modelled either.
- `lru_cache` memoisation is not modelled. The queries are functions of the current state, so stale caches are not modelled.
- networkx internals are not modelled. `dijkstra_path_length` on the unweighted graph is breadth-first distance.
- `search`'s regular-expression branch (terms with `*`, `^` or `$`) returns the two patterns it would compile. Python regular-expression matching is outside the model.
- `remove_duplicates` lives in a file that is not part of this model. It is modelled as keeping first occurrences.
- `reload_note` is not modelled: it reads the entry it has just deleted, and its `remove_node` drops incoming edges.
- `depth`, `get_ndescendants` and `stats_string` of the collection are not modelled. The first reads a field only other code sets; the other two are reporting.
- `Note.depth` and the `note.zettelkasten` back-reference are not modelled, because the modelled core never reads them.
- The `Zettel` and `Note` `__repr__` methods are not modelled.
- The model's `Lower` folds ASCII letters only, and its `IsNumeric` accepts ASCII digits only; Python's `str.lower` and `str.isnumeric` also handle other Unicode letters and digits.
- Selection.SortByName: it does not state that names which compare equal keep their input order (Python's stable sort).
- Transform.Transform: idempotence of the whole rewrite is not stated, because it does not hold. A `---` line right after a closing fence turns that fence into a `## ` heading, so the next pass reads the lines after it as code (Transform.FenceUnderlineOpensCode). The parts that are stable are proved: the link rewrite (Transformer.RewriteIdempotent) and the written tags line (Transform.TagsLineStable).
- Kasten.Backlinks: it returns the set of predecessors, not networkx's list in graph order. Its caller in the modelled core, `transform`, sorts them before writing the section, so the order does not reach the output.

## Findings

| source | as written | input that shows it | evidently intended | confidence | as-written member | corrected member |
|---|---|---|---|---|---|---|
| verzettler/note_transformer.py:102-112 | The autogen pattern's path part `[^)"]*` may run through a `[[id]]` token | The line ` [a](` followed by `[[id]]` of a stored note. The first pass annotates the token. The second pass matches from ` [a](` to the annotation's `"autogen")` and deletes the link | Stripping only removes annotations, so rewriting is idempotent | not executed | Transformer.AsWrittenSwallowsLink | Transformer.GuardedKeepsLink |
| verzettler/note_transformer.py:106-112 | Each token found is replaced everywhere with `replace`, once per occurrence | A line holding the same stored `[[id]]` twice gets two annotations after each copy | Each token is annotated once | not executed | Transformer.AsWrittenDoublesRepeat | Transformer.GuardedAnnotatesRepeatOnce |
| verzettler/bin/zk_open.py:25-26 | A term without `*` ending in `.md` becomes `*term.md` | The term `x.md` gives the pattern `*x.md.md`, which misses the file `x.md` | `*term`, finding the names ending in the term | not executed | OpenCommand.AsWrittenDoublesSuffix | OpenCommand.SearchPatternSuffix |
