/**
 * The plain-text registry files (`data/domains.txt`, `data/allow_list.txt`):
 * one domain per line after a header of `#` comments. The two line parsers
 * the repository uses, and what survives a render-then-parse round trip.
 */
module LineFiles {
  import opened Text

  /** `line.trim() && !line.startsWith('#')`: the test is on the untrimmed line. */
  predicate IsListLine(line: string) {
    Trim(line) != [] && !StartsWith(line, "#")
  }

  /** A stored entry: non-empty, trimmed, lower case, on one line. */
  predicate Canonical(entry: string) {
    entry != [] && Trim(entry) == entry && Lower(entry) == entry && '\n' !in entry
  }

  lemma NormalizedLine(line: string)
    requires '\n' !in line && Trim(line) != []
    ensures Canonical(Normalize(line))
  {
    NormalizeIsCanonical(line);
    var t := Trim(line);
    TrimChars(line, '\n');
    forall i | 0 <= i < |t| ensures Lower(t)[i] != '\n' {
      assert Lower(t)[i] == LowerChar(t[i]);
    }
  }

  /**
   * The comment-dropping parser (aggregation/utils/add-to-list.ts:51,92,99,
   * utils/add-to-list.ts:25, scripts/fetch-domains.ts:71): split into lines,
   * keep those that are not blank and do not start with `#`, normalise them.
   */
  function ParseList(content: string): (r: seq<string>)
    ensures |r| <= |Split(content, '\n')|
    ensures forall i | 0 <= i < |r| :: Canonical(r[i])
  {
    var kept := Filter(Split(content, '\n'), IsListLine);
    forall i | 0 <= i < |kept| ensures Canonical(Normalize(kept[i])) {
      NormalizedLine(kept[i]);
    }
    MapSeq(kept, Normalize)
  }

  predicate IsNonEmpty(s: string) { s != [] }

  /**
   * The comment-keeping parser (utils/add-to-list.ts:18,
   * scripts/fetch-domains.ts:64): normalise every line, keep the non-empty
   * ones, comment lines included.
   */
  function ParseAllowList(content: string): (r: seq<string>)
    ensures |r| <= |Split(content, '\n')|
    ensures forall i | 0 <= i < |r| :: Canonical(r[i])
  {
    var lines := Split(content, '\n');
    var normalized := MapSeq(lines, Normalize);
    forall i | 0 <= i < |lines| && normalized[i] != [] ensures Canonical(normalized[i]) {
      NormalizeIsCanonical(lines[i]);
      NormalizedLine(lines[i]);
    }
    Filter(normalized, IsNonEmpty)
  }

  /** The comment-dropping parser keeps exactly the normal forms of the non-blank lines that do not start with `#`. */
  lemma ParseListMembers(content: string)
    ensures forall x :: x in ParseList(content) <==> exists k | 0 <= k < |Split(content, '\n')| ::
      IsListLine(Split(content, '\n')[k]) && Normalize(Split(content, '\n')[k]) == x
  {
    FilterThenMapMembers(Split(content, '\n'), IsListLine, Normalize);
  }

  /** The comment-keeping parser keeps exactly the non-empty normal forms of the lines. */
  lemma ParseAllowListMembers(content: string)
    ensures forall x :: x in ParseAllowList(content) <==> exists k | 0 <= k < |Split(content, '\n')| ::
      IsNonEmpty(Normalize(Split(content, '\n')[k])) && Normalize(Split(content, '\n')[k]) == x
  {
    MapThenFilterMembers(Split(content, '\n'), Normalize, IsNonEmpty);
  }

  /** A line starting with `#` still starts with `#` once normalised. */
  lemma NormalizeKeepsHash(line: string)
    requires StartsWith(line, "#")
    ensures StartsWith(Normalize(line), "#")
  {
    assert line[..1] == "#";
    TrimKeepsFirst(line);
    var n := Normalize(line);
    assert n[0] == LowerChar(line[0]);
    assert n[..1] == "#";
  }

  /** The comment-keeping parser finds every entry the comment-dropping parser finds. */
  lemma ParseListWithinAllowList(content: string)
    ensures forall x | x in ParseList(content) :: x in ParseAllowList(content)
  {
    var lines := Split(content, '\n');
    var kept := Filter(lines, IsListLine);
    var normalized := MapSeq(lines, Normalize);
    var allowed := Filter(normalized, IsNonEmpty);
    assert ParseList(content) == MapSeq(kept, Normalize);
    assert ParseAllowList(content) == allowed;
    forall i | 0 <= i < |kept| ensures Normalize(kept[i]) in allowed {
      var j :| 0 <= j < |lines| && lines[j] == kept[i];
      NormalizeIsCanonical(lines[j]);
      assert IsNonEmpty(normalized[j]);
    }
  }

  /** What the comment-keeping parser adds are exactly lines that start with `#`. */
  lemma AllowListExtrasAreComments(content: string)
    ensures forall x | x in ParseAllowList(content) && !StartsWith(x, "#") :: x in ParseList(content)
  {
    var lines := Split(content, '\n');
    var kept := Filter(lines, IsListLine);
    var normalized := MapSeq(lines, Normalize);
    assert ParseList(content) == MapSeq(kept, Normalize);
    assert ParseAllowList(content) == Filter(normalized, IsNonEmpty);
    forall x | x in ParseAllowList(content) && !StartsWith(x, "#") ensures x in ParseList(content) {
      var j :| 0 <= j < |normalized| && normalized[j] == x;
      NormalizeIsCanonical(lines[j]);
      if StartsWith(lines[j], "#") {
        NormalizeKeepsHash(lines[j]);
      }
      assert IsListLine(lines[j]);
      var i :| 0 <= i < |kept| && kept[i] == lines[j];
      assert MapSeq(kept, Normalize)[i] == x;
    }
  }

  /** A line the comment-dropping parser skips: on one line, and blank or a `#` comment. */
  predicate HeaderLine(line: string) {
    '\n' !in line && (Trim(line) == [] || StartsWith(line, "#"))
  }

  /** Every line of a group is a header line. */
  predicate HeaderGroup(group: seq<string>) {
    forall i | 0 <= i < |group| :: HeaderLine(group[i])
  }

  /** Every line of every header group is a header line. */
  predicate HeaderGroups(header: seq<seq<string>>) {
    forall g | 0 <= g < |header| :: HeaderGroup(header[g])
  }

  /** `# - ${url}` */
  function Commented(url: string): (r: string)
    ensures '\n' !in url ==> HeaderLine(r)
  {
    assert ("# - " + url)[..1] == "#";
    "# - " + url
  }

  function CommentLines(urls: seq<string>): (r: seq<string>)
    ensures |r| == |urls|
    ensures (forall i | 0 <= i < |urls| :: '\n' !in urls[i]) ==> forall i | 0 <= i < |r| :: HeaderLine(r[i])
  {
    MapSeq(urls, Commented)
  }

  /** An entry that survives the comment-dropping parser unchanged. */
  predicate ListEntry(entry: string) {
    Canonical(entry) && !StartsWith(entry, "#")
  }

  /** The lines of a template whose `${…}` slots are `'\n'`-joined groups. */
  function RenderTemplate(groups: seq<seq<string>>): string {
    Join(MapSeq(groups, g => Join(g, "\n")), "\n")
  }

  /** The lines of a rendered file: the header lines, then the entries (an empty line when there are none). */
  lemma RenderedLines(header: seq<seq<string>>, entries: seq<string>)
    requires HeaderGroups(header)
    requires forall i | 0 <= i < |entries| :: '\n' !in entries[i]
    ensures Split(RenderTemplate(header + [entries]), '\n') == FlattenGroups(header) + Lift(entries)
  {
    var groups := header + [entries];
    JoinGroups(groups, "\n");
    FlattenAppend(header, entries);
    HeaderGroupsFlatten(header);
    var lines := FlattenGroups(header) + Lift(entries);
    assert forall i | 0 <= i < |lines| :: '\n' !in lines[i];
    SplitJoin(lines, '\n');
  }

  /**
   * A file rendered as header groups followed by the entries, one per line,
   * parses back to exactly those entries, in order.
   */
  lemma ParseRendered(header: seq<seq<string>>, entries: seq<string>)
    requires HeaderGroups(header)
    requires forall i | 0 <= i < |entries| :: ListEntry(entries[i])
    ensures ParseList(RenderTemplate(header + [entries])) == entries
  {
    RenderedLines(header, entries);
    RenderedKept(header, entries);
    var lines := FlattenGroups(header) + Lift(entries);
    assert ParseList(RenderTemplate(header + [entries])) == MapSeq(Filter(lines, IsListLine), Normalize);
    forall i | 0 <= i < |entries| ensures Normalize(entries[i]) == entries[i] {
      assert Trim(entries[i]) == entries[i];
    }
    assert MapSeq(entries, Normalize) == entries;
  }

  /** Of a rendered file's lines, the parser keeps exactly the entries. */
  lemma RenderedKept(header: seq<seq<string>>, entries: seq<string>)
    requires HeaderGroups(header)
    requires forall i | 0 <= i < |entries| :: ListEntry(entries[i])
    ensures Filter(FlattenGroups(header) + Lift(entries), IsListLine) == entries
  {
    HeaderGroupsFlatten(header);
    var headLines := FlattenGroups(header);
    FilterAppend(headLines, Lift(entries), IsListLine);
    FilterNone(headLines, IsListLine);
    if entries == [] {
      assert !IsListLine([]) by { TrimUnframed([]); }
      FilterNone(Lift(entries), IsListLine);
    } else {
      FilterAll(entries, IsListLine);
    }
  }

  lemma {:induction false} HeaderGroupsFlatten(header: seq<seq<string>>)
    requires HeaderGroups(header)
    ensures forall i | 0 <= i < |FlattenGroups(header)| :: HeaderLine(FlattenGroups(header)[i])
  {
    if header != [] {
      HeaderGroupsFlatten(header[1..]);
      assert HeaderLine([]) by { TrimUnframed([]); }
      var first := Lift(header[0]);
      var rest := FlattenGroups(header[1..]);
      assert FlattenGroups(header) == first + rest;
      forall i | 0 <= i < |first + rest| ensures HeaderLine((first + rest)[i]) {
        if i >= |first| {
          assert (first + rest)[i] == rest[i - |first|];
        }
      }
    }
  }

  /** A content without a line break is one line: kept and normalised, or dropped. */
  lemma ParseSingleLine(line: string)
    requires '\n' !in line
    ensures ParseList(line) == (if IsListLine(line) then [Normalize(line)] else [])
  {
    SplitWithoutSeparator(line, '\n');
    if IsListLine(line) {
      FilterAll([line], IsListLine);
    } else {
      FilterNone([line], IsListLine);
    }
  }

  /** One leading space hides a `#` from the untrimmed test, and trimming then removes the space. */
  lemma IndentedLine(comment: string)
    requires Canonical(comment)
    ensures IsListLine(" " + comment)
    ensures Normalize(" " + comment) == comment
  {
    var line := " " + comment;
    TrimSkipsLeading(line);
    assert line[1..] == comment;
    assert line[..1] == " ";
  }

  /**
   * The untrimmed `#` test lets an indented comment through: a line ` #…`
   * is stored as `#…`, and once rendered on a line of its own that entry is
   * dropped by the next parse.
   */
  lemma IndentedCommentLeaks(comment: string)
    requires Canonical(comment) && StartsWith(comment, "#")
    ensures ParseList(" " + comment) == [comment]
    ensures ParseList(comment) == []
  {
    IndentedLine(comment);
    ParseSingleLine(" " + comment);
    ParseSingleLine(comment);
  }
}
