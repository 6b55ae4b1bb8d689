/**
 * What the registry merges share: reloading a set from a line file, the
 * names a merge loop admits, and the two text artifacts the merges write
 * (`data/allow_list.txt` and `data/domains.txt`) with their round trips
 * through the comment-dropping parser.
 */
module Registry {
  import opened Wrappers
  import opened Text
  import opened Ordering
  import opened DomainValidation
  import opened LineFiles

  /**
   * `if (fs.existsSync(path)) set = new Set(parse(content))`: a file that
   * exists replaces the set with its parsed lines; a missing one keeps it.
   */
  function Reload(previous: set<string>, file: Option<string>, parse: string -> seq<string>): (r: set<string>)
    ensures file.None? ==> r == previous
    ensures file.Some? ==> forall x :: x in r <==> x in parse(file.value)
  {
    match file
    case None => previous
    case Some(content) => SetOf(parse(content))
  }

  /** The test of a merge loop: the name validates and is not excluded. */
  predicate Admissible(name: string, tldSet: set<string>, excluded: set<string>) {
    IsValidDomain(name, tldSet) && name !in excluded
  }

  /** The names a merge loop adds to its set, taking the candidates in order. */
  function Accepted(names: seq<string>, tldSet: set<string>, excluded: set<string>): (r: set<string>)
    ensures forall x | x in r :: x in names
  {
    if names == [] then {}
    else
      var last := names[|names| - 1];
      var earlier := Accepted(names[..|names| - 1], tldSet, excluded);
      assert forall x | x in names[..|names| - 1] :: x in names;
      earlier + (if Admissible(last, tldSet, excluded) then {last} else {})
  }

  /** One more candidate: the loop body's effect on the accepted set. */
  lemma AcceptedSnoc(names: seq<string>, name: string, tldSet: set<string>, excluded: set<string>)
    ensures Accepted(names + [name], tldSet, excluded)
      == Accepted(names, tldSet, excluded) + (if Admissible(name, tldSet, excluded) then {name} else {})
  {
    assert (names + [name])[..|names|] == names;
  }

  /** The merge loop's step: the prefix through `i` adds `names[i]` when it is admissible. */
  lemma AcceptedStep(names: seq<string>, i: nat, tldSet: set<string>, excluded: set<string>)
    requires i < |names|
    ensures Accepted(names[..i + 1], tldSet, excluded)
      == Accepted(names[..i], tldSet, excluded) + (if Admissible(names[i], tldSet, excluded) then {names[i]} else {})
  {
    assert names[..i + 1] == names[..i] + [names[i]];
    AcceptedSnoc(names[..i], names[i], tldSet, excluded);
  }

  /** A merge admits exactly the admissible candidates, whatever their order or repetition. */
  lemma {:induction false} AcceptedExactly(names: seq<string>, tldSet: set<string>, excluded: set<string>)
    ensures forall x :: x in Accepted(names, tldSet, excluded) <==> x in names && Admissible(x, tldSet, excluded)
  {
    if names != [] {
      var init := names[..|names| - 1];
      AcceptedExactly(init, tldSet, excluded);
      assert names == init + [names[|names| - 1]];
      forall x | x in names && Admissible(x, tldSet, excluded)
        ensures x in Accepted(names, tldSet, excluded)
      {
        if x != names[|names| - 1] {
          var i :| 0 <= i < |names| && names[i] == x;
          assert init[i] == x;
        }
      }
    }
  }

  /** Two exclusion sets that agree on every valid name exclude the same candidates. */
  lemma {:induction false} AcceptedIgnoresInvalidExclusions(names: seq<string>, tldSet: set<string>, e1: set<string>, e2: set<string>)
    requires forall x | IsValidDomain(x, tldSet) :: x in e1 <==> x in e2
    ensures Accepted(names, tldSet, e1) == Accepted(names, tldSet, e2)
  {
    if names != [] {
      AcceptedIgnoresInvalidExclusions(names[..|names| - 1], tldSet, e1, e2);
    }
  }

  /** `domain.trim().toLowerCase()` for every candidate, in order. */
  function Normalized(domains: seq<string>): (r: seq<string>)
    ensures |r| == |domains|
    ensures forall i | 0 <= i < |r| :: r[i] == Normalize(domains[i])
  {
    MapSeq(domains, Normalize)
  }

  lemma NormalizedPrefix(domains: seq<string>, i: nat)
    requires i < |domains|
    ensures Normalized(domains[..i + 1]) == Normalized(domains[..i]) + [Normalize(domains[i])]
  {
  }

  /** One turn of a merge loop: adding the admissible candidate extends the accepted set by one. */
  lemma FoldStep(baseline: set<string>, domains: seq<string>, i: nat, tldSet: set<string>, excluded: set<string>,
                 before: set<string>, after: set<string>, added: bool)
    requires i < |domains|
    requires before == baseline + Accepted(Normalized(domains[..i]), tldSet, excluded)
    requires added == Admissible(Normalize(domains[i]), tldSet, excluded)
    requires after == if added then before + {Normalize(domains[i])} else before
    ensures after == baseline + Accepted(Normalized(domains[..i + 1]), tldSet, excluded)
  {
    NormalizedPrefix(domains, i);
    AcceptedSnoc(Normalized(domains[..i]), Normalize(domains[i]), tldSet, excluded);
  }

  /** A valid, normalised name is a list entry: it survives the comment-dropping parser as it is. */
  lemma ValidNormalizedIsEntry(domain: string, tldSet: set<string>)
    requires IsValidDomain(Normalize(domain), tldSet)
    ensures ListEntry(Normalize(domain))
  {
    var n := Normalize(domain);
    NormalizeIsCanonical(domain);
    ValidDomainShape(n, tldSet);
    assert n[0] != '#';
    assert n[..1] != "#" by { assert n[..1][0] == n[0]; }
    forall i | 0 <= i < |n| ensures n[i] != '\n' {
      assert IsAsciiAlnum(n[i]) || n[i] == '.' || n[i] == '-';
    }
  }

  /** Every name a merge admits from normalised candidates is a list entry. */
  lemma AcceptedAreEntries(domains: seq<string>, tldSet: set<string>, excluded: set<string>)
    ensures forall x | x in Accepted(Normalized(domains), tldSet, excluded) :: ListEntry(x)
  {
    AcceptedExactly(Normalized(domains), tldSet, excluded);
    forall x | x in Accepted(Normalized(domains), tldSet, excluded) ensures ListEntry(x) {
      var i :| 0 <= i < |domains| && Normalized(domains)[i] == x;
      ValidNormalizedIsEntry(domains[i], tldSet);
    }
  }

  /** A set of stored entries stays one after a merge. */
  lemma MergedCanonical(baseline: set<string>, domains: seq<string>, tldSet: set<string>, excluded: set<string>)
    requires forall x | x in baseline :: Canonical(x)
    ensures forall x | x in baseline + Accepted(Normalized(domains), tldSet, excluded) :: Canonical(x)
  {
    AcceptedAreEntries(domains, tldSet, excluded);
  }

  /** No string of `lines` holds a line break. */
  predicate OneLineEach(lines: seq<string>) {
    forall i | 0 <= i < |lines| :: '\n' !in lines[i]
  }

  /** No stored name starts with `#` (only an indented comment line of a parsed file yields one). */
  predicate NoCommentEntries(names: set<string>) {
    forall x | x in names :: !StartsWith(x, "#")
  }

  // The header comments, written in pieces of at most thirty characters.
  const AllowHeader1 := "# a manual allow list, this " + "allows contributors to add " + "domains that may be false flagged"
  const AllowHeader2 := "# some domains may have been " + "sourced from external lists, " + "but this is primarily for " + "manual additions"
  const ListHeader1 := "# AUTO-GENERATED FILE - " + "DO NOT EDIT DIRECTLY"
  const ListHeader2 := "# Data sourced from various " + "disposable email domain lists"
  const StampPrefix := "# Last updated: "

  /** `data/allow_list.txt` as addToAllowlist writes it: a blank line, two comments, the URLs, a blank line, the domains. */
  function AllowlistText(urls: seq<string>, domains: seq<string>): string {
    "\n" + AllowHeader1 + "\n" + AllowHeader2 + "\n" + Join(CommentLines(urls), "\n") + "\n\n" + Join(domains, "\n")
  }

  function AllowlistHeader(urls: seq<string>): seq<seq<string>> {
    [[""], [AllowHeader1], [AllowHeader2], CommentLines(urls), [""]]
  }

  /**
   * `data/domains.txt` as both disposable merges write it: two comments,
   * three groups of commented source URLs, the time stamp, a blank line,
   * the domains.
   */
  function ListText(urls1: seq<string>, urls2: seq<string>, urls3: seq<string>, stamp: string, domains: seq<string>): string {
    ListHeader1 + "\n" + ListHeader2 + "\n" + Join(CommentLines(urls1), "\n") + "\n"
      + Join(CommentLines(urls2), "\n") + "\n" + Join(CommentLines(urls3), "\n") + "\n"
      + StampPrefix + stamp + "\n\n" + Join(domains, "\n")
  }

  function ListHeader(urls1: seq<string>, urls2: seq<string>, urls3: seq<string>, stamp: string): seq<seq<string>> {
    [[ListHeader1], [ListHeader2], CommentLines(urls1), CommentLines(urls2), CommentLines(urls3), [StampPrefix + stamp], [""]]
  }

  lemma JoinCons(first: string, rest: seq<string>, sep: string)
    requires rest != []
    ensures Join([first] + rest, sep) == first + sep + Join(rest, sep)
  {
    assert ([first] + rest)[1..] == rest;
  }

  lemma JoinSix(a: string, b: string, c: string, d: string, e: string, f: string, sep: string)
    ensures Join([a, b, c, d, e, f], sep) == a + sep + b + sep + c + sep + d + sep + e + sep + f
  {
    JoinCons(e, [f], sep);
    JoinCons(d, [e, f], sep);
    JoinCons(c, [d, e, f], sep);
    JoinCons(b, [c, d, e, f], sep);
    JoinCons(a, [b, c, d, e, f], sep);
  }

  lemma AllowlistLines(urls: seq<string>, domains: seq<string>)
    ensures MapSeq(AllowlistHeader(urls) + [domains], g => Join(g, "\n"))
      == [[], AllowHeader1, AllowHeader2, Join(CommentLines(urls), "\n"), [], Join(domains, "\n")]
  {
  }

  /** The allow-list template is its header groups and the domains, one line each. */
  lemma AllowlistLayout(urls: seq<string>, domains: seq<string>)
    ensures AllowlistText(urls, domains) == RenderTemplate(AllowlistHeader(urls) + [domains])
  {
    AllowlistLines(urls, domains);
    assert [] + "\n" == "\n";
    JoinSix([], AllowHeader1, AllowHeader2, Join(CommentLines(urls), "\n"), [], Join(domains, "\n"), "\n");
  }

  lemma JoinEight(a: string, b: string, c: string, d: string, e: string, f: string, g: string, h: string, sep: string)
    ensures Join([a, b, c, d, e, f, g, h], sep) == a + sep + b + sep + c + sep + d + sep + e + sep + f + sep + g + sep + h
  {
    JoinSix(c, d, e, f, g, h, sep);
    JoinCons(b, [c, d, e, f, g, h], sep);
    JoinCons(a, [b, c, d, e, f, g, h], sep);
  }

  lemma ListLines(urls1: seq<string>, urls2: seq<string>, urls3: seq<string>, stamp: string, domains: seq<string>)
    ensures MapSeq(ListHeader(urls1, urls2, urls3, stamp) + [domains], g => Join(g, "\n"))
      == [ListHeader1, ListHeader2, Join(CommentLines(urls1), "\n"), Join(CommentLines(urls2), "\n"),
          Join(CommentLines(urls3), "\n"), StampPrefix + stamp, [], Join(domains, "\n")]
  {
  }

  /** The list template is its header groups and the domains, one line each. */
  lemma ListLayout(urls1: seq<string>, urls2: seq<string>, urls3: seq<string>, stamp: string, domains: seq<string>)
    ensures ListText(urls1, urls2, urls3, stamp, domains) == RenderTemplate(ListHeader(urls1, urls2, urls3, stamp) + [domains])
  {
    ListLines(urls1, urls2, urls3, stamp, domains);
    JoinEight(ListHeader1, ListHeader2, Join(CommentLines(urls1), "\n"), Join(CommentLines(urls2), "\n"),
      Join(CommentLines(urls3), "\n"), StampPrefix + stamp, [], Join(domains, "\n"), "\n");
  }

  /** A literal comment line is a header line. */
  lemma CommentHeaderLine(line: string)
    requires |line| > 0 && line[0] == '#' && '\n' !in line
    ensures HeaderLine(line)
  {
    assert line[..1] == "#";
  }

  lemma BlankHeaderLine()
    ensures HeaderLine("")
  {
    TrimUnframed("");
  }

  lemma AllowCommentLine1()
    ensures HeaderLine(AllowHeader1)
  {
    assert '\n' !in AllowHeader1;
    CommentHeaderLine(AllowHeader1);
  }

  lemma AllowCommentLine2()
    ensures HeaderLine(AllowHeader2)
  {
    assert '\n' !in AllowHeader2;
    CommentHeaderLine(AllowHeader2);
  }

  lemma SingleLineGroup(line: string)
    requires HeaderLine(line)
    ensures HeaderGroup([line])
  {
  }

  lemma CommentGroup(urls: seq<string>)
    requires OneLineEach(urls)
    ensures HeaderGroup(CommentLines(urls))
  {
  }

  lemma FiveGroups(a: seq<string>, b: seq<string>, c: seq<string>, d: seq<string>, e: seq<string>)
    requires HeaderGroup(a) && HeaderGroup(b) && HeaderGroup(c) && HeaderGroup(d) && HeaderGroup(e)
    ensures HeaderGroups([a, b, c, d, e])
  {
  }

  lemma SevenGroups(a: seq<string>, b: seq<string>, c: seq<string>, d: seq<string>, e: seq<string>,
                    f: seq<string>, g: seq<string>)
    requires HeaderGroup(a) && HeaderGroup(b) && HeaderGroup(c) && HeaderGroup(d)
    requires HeaderGroup(e) && HeaderGroup(f) && HeaderGroup(g)
    ensures HeaderGroups([a, b, c, d, e, f, g])
  {
  }

  /** Every allow-list header line is skipped by the parser. */
  lemma AllowHeaderLines(urls: seq<string>)
    requires OneLineEach(urls)
    ensures HeaderGroups(AllowlistHeader(urls))
  {
    BlankHeaderLine();
    AllowCommentLine1();
    AllowCommentLine2();
    SingleLineGroup("");
    SingleLineGroup(AllowHeader1);
    SingleLineGroup(AllowHeader2);
    CommentGroup(urls);
    FiveGroups([""], [AllowHeader1], [AllowHeader2], CommentLines(urls), [""]);
  }

  /** Every list header line is skipped by the parser. */
  lemma ListHeaderLines(urls1: seq<string>, urls2: seq<string>, urls3: seq<string>, stamp: string)
    requires OneLineEach(urls1) && OneLineEach(urls2) && OneLineEach(urls3) && '\n' !in stamp
    ensures HeaderGroups(ListHeader(urls1, urls2, urls3, stamp))
  {
    BlankHeaderLine();
    ListCommentLine1();
    ListCommentLine2();
    StampLine(stamp);
    SingleLineGroup("");
    SingleLineGroup(ListHeader1);
    SingleLineGroup(ListHeader2);
    SingleLineGroup(StampPrefix + stamp);
    CommentGroup(urls1);
    CommentGroup(urls2);
    CommentGroup(urls3);
    SevenGroups([ListHeader1], [ListHeader2], CommentLines(urls1), CommentLines(urls2), CommentLines(urls3),
      [StampPrefix + stamp], [""]);
  }

  lemma ListCommentLine1()
    ensures HeaderLine(ListHeader1)
  {
    assert '\n' !in ListHeader1;
    CommentHeaderLine(ListHeader1);
  }

  lemma ListCommentLine2()
    ensures HeaderLine(ListHeader2)
  {
    assert '\n' !in ListHeader2;
    CommentHeaderLine(ListHeader2);
  }

  lemma StampLine(stamp: string)
    requires '\n' !in stamp
    ensures HeaderLine(StampPrefix + stamp)
  {
    assert '\n' !in StampPrefix;
    CommentHeaderLine(StampPrefix + stamp);
  }

  /** A sorted listing re-read as a set is the set. */
  lemma SortedListElements(s: set<string>)
    ensures SetOf(SortedList(s)) == s
  {
  }

  /**
   * The allow list written from a set re-parses, with the comment-dropping
   * parser, to the set's sorted listing, and so to the set itself.
   */
  lemma AllowlistRoundTrip(urls: seq<string>, allowed: set<string>)
    requires OneLineEach(urls)
    requires forall x | x in allowed :: Canonical(x)
    requires NoCommentEntries(allowed)
    ensures ParseList(AllowlistText(urls, SortedList(allowed))) == SortedList(allowed)
    ensures SetOf(ParseList(AllowlistText(urls, SortedList(allowed)))) == allowed
  {
    var sorted := SortedList(allowed);
    AllowlistLayout(urls, sorted);
    AllowHeaderLines(urls);
    ParseRendered(AllowlistHeader(urls), sorted);
    SortedListElements(allowed);
  }

  /**
   * The disposable list written from a set re-parses, with the
   * comment-dropping parser, to the set's sorted listing, and so to the set.
   */
  lemma ListRoundTrip(urls1: seq<string>, urls2: seq<string>, urls3: seq<string>, stamp: string, listed: set<string>)
    requires OneLineEach(urls1) && OneLineEach(urls2) && OneLineEach(urls3) && '\n' !in stamp
    requires forall x | x in listed :: Canonical(x)
    requires NoCommentEntries(listed)
    ensures ParseList(ListText(urls1, urls2, urls3, stamp, SortedList(listed))) == SortedList(listed)
    ensures SetOf(ParseList(ListText(urls1, urls2, urls3, stamp, SortedList(listed)))) == listed
  {
    var sorted := SortedList(listed);
    ListLayout(urls1, urls2, urls3, stamp, sorted);
    ListHeaderLines(urls1, urls2, urls3, stamp);
    ParseRendered(ListHeader(urls1, urls2, urls3, stamp), sorted);
    SortedListElements(listed);
  }

  /**
   * The comment-keeping and comment-dropping allow-list parsers hold the
   * same valid names, so a merge excludes the same candidates with either.
   */
  lemma AllowParsersExcludeAlike(names: seq<string>, tldSet: set<string>, content: string)
    ensures Accepted(names, tldSet, SetOf(ParseAllowList(content))) == Accepted(names, tldSet, SetOf(ParseList(content)))
  {
    var withComments := SetOf(ParseAllowList(content));
    var withoutComments := SetOf(ParseList(content));
    ParseListWithinAllowList(content);
    AllowListExtrasAreComments(content);
    forall x | IsValidDomain(x, tldSet) ensures x in withComments <==> x in withoutComments {
      ValidDomainIsNoComment(x, tldSet);
    }
    AcceptedIgnoresInvalidExclusions(names, tldSet, withComments, withoutComments);
  }

  /** A valid domain does not start with `#`. */
  lemma ValidDomainIsNoComment(x: string, tldSet: set<string>)
    requires IsValidDomain(x, tldSet)
    ensures !StartsWith(x, "#")
  {
    ValidDomainShape(x, tldSet);
    assert x[..1] != "#" by { assert x[..1][0] == x[0]; }
  }
}
