/**
 * scripts/fetch-tlds.ts: parse IANA's TLD list, refuse it when a name
 * holds a character outside `[A-Za-z0-9-]`, and generate the body of
 * `isTldValid` as `if` statements of at most 20 equality tests each.
 */
module TldGeneration {
  import opened Wrappers
  import opened Text

  const ConditionsPerStatement := 20

  datatype TldError =
    | FetchFailed        // `!response.ok`
    | NoTlds             // 'No valid TLDs found in the response'
    | InvalidCharacters  // 'Potential supply chain attack detected: ...'

  /** `/^[a-zA-Z0-9-]+$/` */
  predicate MatchesTldPattern(tld: string) {
    |tld| >= 1 && forall i | 0 <= i < |tld| :: IsAsciiAlnum(tld[i]) || tld[i] == '-'
  }

  /** A line fetchTldList keeps: not empty and not a comment, checked before trimming. */
  predicate IsTldLine(line: string) {
    line != [] && !StartsWith(line, "#")
  }

  /**
   * fetchTldList once the response is in: the kept lines, trimmed and
   * lower-cased; a failed response or an empty result is an error.
   */
  function ParseTldList(ok: bool, body: string): (r: Result<seq<string>, TldError>)
    ensures r == Err(FetchFailed) <==> !ok
    ensures r.Ok? ==> r.value != [] && |r.value| <= |Split(body, '\n')|
    ensures r.Ok? ==> forall i | 0 <= i < |r.value| :: Lower(r.value[i]) == r.value[i] && Trim(r.value[i]) == r.value[i]
    ensures ok ==> (r == Err(NoTlds) <==> forall k | 0 <= k < |Split(body, '\n')| :: !IsTldLine(Split(body, '\n')[k]))
    ensures r.Ok? ==> forall i | 0 <= i < |r.value| ::
      exists k | 0 <= k < |Split(body, '\n')| :: IsTldLine(Split(body, '\n')[k]) && Normalize(Split(body, '\n')[k]) == r.value[i]
  {
    if !ok then Err(FetchFailed)
    else
      var lines := Split(body, '\n');
      var kept := Filter(lines, IsTldLine);
      var tlds := MapSeq(kept, Normalize);
      assert kept == [] ==> forall k | 0 <= k < |lines| :: !IsTldLine(lines[k]);
      assert kept != [] ==> kept[0] in lines && IsTldLine(kept[0]);
      forall i | 0 <= i < |tlds| ensures Lower(tlds[i]) == tlds[i] && Trim(tlds[i]) == tlds[i] {
        NormalizeIsCanonical(kept[i]);
      }
      if tlds == [] then Err(NoTlds) else Ok(tlds)
  }

  /** Every kept line of an accepted list yields its trimmed, lower-cased name. */
  lemma ParseTldListComplete(body: string)
    ensures ParseTldList(true, body).Ok? ==>
      forall k | 0 <= k < |Split(body, '\n')| && IsTldLine(Split(body, '\n')[k]) ::
        Normalize(Split(body, '\n')[k]) in ParseTldList(true, body).value
  {
    FilterThenMapMembers(Split(body, '\n'), IsTldLine, Normalize);
  }

  /** `"${tld.toLowerCase()}" === normalizedTld` */
  function ConditionText(tld: string): string {
    "\"" + Lower(tld) + "\" === normalizedTld"
  }

  /** The condition text for a normalised name holds exactly when its literal is that name. */
  predicate Holds(condition: string, normalizedTld: string) {
    condition == "\"" + normalizedTld + "\" === normalizedTld"
  }

  /** A condition compares against the lower-cased TLD: it holds exactly for the names equal to it after lower-casing. */
  lemma ConditionHolds(tld: string, t: string)
    ensures Holds(ConditionText(tld), Lower(t)) <==> Lower(tld) == Lower(t)
  {
    var a := "\"" + Lower(tld) + "\" === normalizedTld";
    var b := "\"" + Lower(t) + "\" === normalizedTld";
    if a == b {
      assert |Lower(tld)| == |Lower(t)|;
      assert Lower(tld) == a[1..|Lower(tld)| + 1];
      assert Lower(t) == b[1..|Lower(t)| + 1];
    }
  }

  /** The conditions split into consecutive slices of 20, the last one possibly shorter. */
  function Chunks(xs: seq<string>): (r: seq<seq<string>>)
    ensures |r| == (|xs| + 19) / 20
    ensures forall j | 0 <= j < |r| :: 1 <= |r[j]| <= ConditionsPerStatement
    decreases |xs|
  {
    if xs == [] then []
    else if |xs| <= ConditionsPerStatement then [xs]
    else [xs[..ConditionsPerStatement]] + Chunks(xs[ConditionsPerStatement..])
  }

  /** The slices, put back together. */
  function Flatten(chunks: seq<seq<string>>): seq<string> {
    if chunks == [] then [] else chunks[0] + Flatten(chunks[1..])
  }

  /** Chunking loses, adds and reorders nothing. */
  lemma {:induction false} ChunksFlatten(xs: seq<string>)
    ensures Flatten(Chunks(xs)) == xs
    decreases |xs|
  {
    if xs != [] && |xs| > ConditionsPerStatement {
      ChunksFlatten(xs[ConditionsPerStatement..]);
      var r := Chunks(xs);
      assert r[1..] == Chunks(xs[ConditionsPerStatement..]);
      assert xs[..ConditionsPerStatement] + xs[ConditionsPerStatement..] == xs;
    }
  }

  /** Every slice but the last is full. */
  lemma {:induction false} ChunksFull(xs: seq<string>)
    ensures forall j | 0 <= j < |Chunks(xs)| - 1 :: |Chunks(xs)[j]| == ConditionsPerStatement
    decreases |xs|
  {
    if xs != [] && |xs| > ConditionsPerStatement {
      ChunksFull(xs[ConditionsPerStatement..]);
      var r := Chunks(xs);
      assert r[1..] == Chunks(xs[ConditionsPerStatement..]);
      forall j | 1 <= j < |r| - 1 ensures |r[j]| == ConditionsPerStatement {
        assert r[j] == r[1..][j - 1];
      }
    }
  }

  lemma {:induction false} FlattenMembership(chunks: seq<seq<string>>, x: string)
    ensures x in Flatten(chunks) <==> exists j, k | 0 <= j < |chunks| && 0 <= k < |chunks[j]| :: chunks[j][k] == x
  {
    if chunks != [] {
      FlattenMembership(chunks[1..], x);
      if x in Flatten(chunks) {
        if x in chunks[0] {
          var k :| 0 <= k < |chunks[0]| && chunks[0][k] == x;
          assert chunks[0][k] == x;
        } else {
          var j, k :| 0 <= j < |chunks[1..]| && 0 <= k < |chunks[1..][j]| && chunks[1..][j][k] == x;
          assert chunks[j + 1][k] == x;
        }
      }
      if exists j, k | 0 <= j < |chunks| && 0 <= k < |chunks[j]| :: chunks[j][k] == x {
        var j, k :| 0 <= j < |chunks| && 0 <= k < |chunks[j]| && chunks[j][k] == x;
        if j > 0 {
          assert chunks[1..][j - 1][k] == x;
        }
      }
    }
  }

  /** `\tif (${slice.join(' || ')}) return true;\n` */
  function Statement(slice: seq<string>): string {
    "\tif (" + Join(slice, " || ") + ") return true;\n"
  }

  /** The statements of the slices, one after the other. */
  function Statements(chunks: seq<seq<string>>): string {
    if chunks == [] then [] else Statement(chunks[0]) + Statements(chunks[1..])
  }

  function Min(a: int, b: int): int { if a <= b then a else b }

  /** What is left to chunk from position `i` of the conditions. */
  lemma ChunksFrom(xs: seq<string>, i: nat)
    requires i < |xs|
    ensures var end := Min(i + ConditionsPerStatement, |xs|);
      Chunks(xs[i..]) == [xs[i..end]] + Chunks(xs[end..])
  {
    var size := ConditionsPerStatement;
    if |xs[i..]| > size {
      assert xs[i..][..size] == xs[i..i + size];
      assert xs[i..][size..] == xs[i + size..];
    } else {
      assert xs[i..Min(i + size, |xs|)] == xs[i..];
      assert xs[Min(i + size, |xs|)..] == [];
    }
  }

  /**
   * The loop of lines 26-31: one `if` statement per slice of 20 conditions,
   * appended to `ifConditions` in order.
   */
  method GenerateIfConditions(conditions: seq<string>) returns (ifConditions: string)
    ensures ifConditions == Statements(Chunks(conditions))
  {
    ifConditions := "";
    var i := 0;
    while i < |conditions|
      invariant 0 <= i
      invariant ifConditions + Statements(Chunks(conditions[Min(i, |conditions|)..]))
        == Statements(Chunks(conditions))
      decreases |conditions| - i
    {
      var conditionsSlice := conditions[i..Min(i + ConditionsPerStatement, |conditions|)];
      ChunksFrom(conditions, i);
      ifConditions := ifConditions + Statement(conditionsSlice);
      i := i + ConditionsPerStatement;
    }
    assert conditions[Min(i, |conditions|)..] == [];
  }

  /** The generated `isTldValid`: true when a condition of some statement holds for the lower-cased argument. */
  predicate GeneratedIsTldValid(chunks: seq<seq<string>>, tld: string) {
    exists j, k | 0 <= j < |chunks| && 0 <= k < |chunks[j]| :: Holds(chunks[j][k], Lower(tld))
  }

  /**
   * parseAndGenerateTldFile up to the file text: every TLD must match the
   * pattern, or generation stops with an error; otherwise the `if`
   * statements of the conditions, 20 per statement.
   */
  method ParseAndGenerate(tlds: seq<string>) returns (r: Result<string, TldError>)
    ensures r.Err? <==> exists i | 0 <= i < |tlds| :: !MatchesTldPattern(tlds[i])
    ensures r.Err? ==> r.error == InvalidCharacters
    ensures r.Ok? ==> r.value == Statements(Chunks(MapSeq(tlds, ConditionText)))
  {
    var validTlds := Filter(tlds, MatchesTldPattern);
    if |validTlds| != |tlds| {
      return Err(InvalidCharacters);
    }
    var tldIfConditions := MapSeq(tlds, ConditionText);
    var ifConditions := GenerateIfConditions(tldIfConditions);
    return Ok(ifConditions);
  }

  /**
   * The generated function accepts exactly the names that equal a listed
   * TLD after both are lower-cased.
   */
  lemma GeneratedIsMembership(tlds: seq<string>, t: string)
    ensures GeneratedIsTldValid(Chunks(MapSeq(tlds, ConditionText)), t)
      <==> exists i | 0 <= i < |tlds| :: Lower(tlds[i]) == Lower(t)
  {
    var conditions := MapSeq(tlds, ConditionText);
    var chunks := Chunks(conditions);
    var target := "\"" + Lower(t) + "\" === normalizedTld";
    ChunksFlatten(conditions);
    FlattenMembership(chunks, target);
    if exists i | 0 <= i < |tlds| :: Lower(tlds[i]) == Lower(t) {
      var i :| 0 <= i < |tlds| && Lower(tlds[i]) == Lower(t);
      ConditionHolds(tlds[i], t);
      assert conditions[i] == target;
    }
    if GeneratedIsTldValid(chunks, t) {
      assert target in conditions;
      var i :| 0 <= i < |conditions| && conditions[i] == target;
      ConditionHolds(tlds[i], t);
    }
  }

  /** ceil(n / 20) statements, each of 1 to 20 conditions, all but the last full. */
  lemma StatementShape(tlds: seq<string>)
    ensures var chunks := Chunks(MapSeq(tlds, ConditionText));
      && |chunks| == (|tlds| + 19) / 20
      && (forall j | 0 <= j < |chunks| :: 1 <= |chunks[j]| <= 20)
      && (forall j | 0 <= j < |chunks| - 1 :: |chunks[j]| == 20)
      && Flatten(chunks) == MapSeq(tlds, ConditionText)
  {
    ChunksFull(MapSeq(tlds, ConditionText));
    ChunksFlatten(MapSeq(tlds, ConditionText));
  }

  /**
   * A line of only spaces passes the untrimmed filter and becomes the
   * empty name, which the pattern check then refuses: one such line in the
   * fetched list stops the generation.
   */
  lemma BlankLineStopsGeneration(body: string, tlds: seq<string>, k: nat)
    requires k < |Split(body, '\n')|
    requires var line := Split(body, '\n')[k]; line != [] && line[0] == ' ' && Trim(line) == []
    requires ParseTldList(true, body) == Ok(tlds)
    ensures exists i | 0 <= i < |tlds| :: tlds[i] == [] && !MatchesTldPattern(tlds[i])
  {
    var line := Split(body, '\n')[k];
    assert line[..1] != "#" by { assert line[..1][0] == ' '; }
    assert IsTldLine(line);
    assert Normalize(line) == [];
    ParseTldListComplete(body);
    var i :| 0 <= i < |tlds| && tlds[i] == Normalize(line);
  }
}
