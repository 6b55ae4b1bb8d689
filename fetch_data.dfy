/**
 * `fetchData` (aggregation/fetch/domains.ts and scripts/fetch-domains.ts,
 * identical in both): turn a fetched source into candidate names, from a
 * JSON key, a CSV column or the plain lines of the body.
 */
module FetchData {
  import opened Wrappers
  import opened Text
  import opened LineFiles

  /** The part of a JSON body the fetcher can select from. */
  datatype Json = JStrings(items: seq<string>) | JObject(fields: map<string, Json>) | JOther

  /**
   * What `fetch(url)` resolved to: `response.ok`, the text body, and the
   * body parsed as JSON (None when `response.json()` rejects).
   */
  datatype Response = Response(ok: bool, body: string, json: Option<Json>)

  /** One source: the response and the `key` and `col` arguments. */
  datatype Source = Source(response: Response, key: Option<string>, col: Option<int>)

  /** A plain-mode line is kept when it is not empty and not a comment, checked after normalising. */
  predicate IsDataLine(line: string) {
    line != [] && !StartsWith(line, "#")
  }

  /** Plain mode: the body's lines trimmed and lower-cased, blank and `#` lines dropped. */
  function PlainLines(body: string): (r: seq<string>)
    ensures |r| <= |Split(body, '\n')|
    ensures forall i | 0 <= i < |r| :: ListEntry(r[i])
  {
    var lines := Split(body, '\n');
    var normalized := MapSeq(lines, Normalize);
    forall i | 0 <= i < |lines| && IsDataLine(normalized[i]) ensures ListEntry(normalized[i]) {
      NormalizeIsCanonical(lines[i]);
      NormalizedLine(lines[i]);
    }
    Filter(normalized, IsDataLine)
  }

  /** Plain mode returns exactly the normal forms of the body's lines that are data lines once normalised. */
  lemma PlainLinesMembers(body: string)
    ensures forall x :: x in PlainLines(body) <==> exists k | 0 <= k < |Split(body, '\n')| ::
      IsDataLine(Normalize(Split(body, '\n')[k])) && Normalize(Split(body, '\n')[k]) == x
  {
    var lines := Split(body, '\n');
    assert PlainLines(body) == Filter(MapSeq(lines, Normalize), IsDataLine);
    MapThenFilterMembers(lines, Normalize, IsDataLine);
  }

  predicate IsNotQuote(c: char) { c != '"' }

  /** `s.replaceAll(/"/g, '')` */
  function RemoveQuotes(s: string): (r: string)
    ensures '"' !in r
    ensures |r| == |s| <==> '"' !in s
    ensures '"' !in s ==> r == s
  {
    if '"' !in s then FilterAll(s, IsNotQuote); Filter(s, IsNotQuote)
    else Filter(s, IsNotQuote)
  }

  /**
   * Removal works piece by piece: the text on either side of a `"` is kept,
   * in order. With quote-free text kept unchanged, this fixes every result.
   */
  lemma RemoveQuotesPiecewise(a: string, b: string)
    ensures RemoveQuotes(a + b) == RemoveQuotes(a) + RemoveQuotes(b)
    ensures RemoveQuotes(a + "\"" + b) == RemoveQuotes(a) + RemoveQuotes(b)
  {
    FilterAppend(a, b, IsNotQuote);
    FilterAppend(a, "\"" + b, IsNotQuote);
    FilterCons('"', b, IsNotQuote);
    assert a + "\"" + b == a + ("\"" + b);
  }

  /** `line.split(',')[col].trim().toLowerCase().replaceAll('"', '')`, or None where `parts[col]` is undefined. */
  function CsvField(line: string, col: int): (r: Option<string>)
    ensures r.Some? <==> 0 <= col < |Split(line, ',')|
    ensures r.Some? ==> '"' !in r.value && ',' !in r.value
    ensures r.Some? ==> r.value == RemoveQuotes(Normalize(Split(line, ',')[col]))
  {
    var parts := Split(line, ',');
    if 0 <= col < |parts| then
      var field := Normalize(parts[col]);
      TrimChars(parts[col], ',');
      assert ',' !in field by {
        forall i | 0 <= i < |field| ensures field[i] != ',' {
          assert field[i] == LowerChar(Trim(parts[col])[i]);
        }
      }
      var unquoted := RemoveQuotes(field);
      assert forall i | 0 <= i < |unquoted| :: unquoted[i] in field;
      Some(unquoted)
    else None
  }

  /** Every value present: the values, in order; one missing: None. */
  function AllSome<T>(xs: seq<Option<T>>): (r: Option<seq<T>>)
    ensures r.Some? <==> forall i | 0 <= i < |xs| :: xs[i].Some?
    ensures r.Some? ==> |r.value| == |xs| && forall i | 0 <= i < |xs| :: xs[i] == Some(r.value[i])
  {
    if xs == [] then Some([])
    else
      var rest := AllSome(xs[1..]);
      assert forall i | 1 <= i < |xs| :: xs[1..][i - 1] == xs[i];
      if xs[0].None? then None
      else if rest.None? then
        assert exists i | 1 <= i < |xs| :: xs[i].None?;
        None
      else Some([xs[0].value] + rest.value)
  }

  /**
   * CSV mode: column `col` of every kept line. A line without that column
   * makes `parts[col].trim()` throw, and the whole fetch yields nothing.
   */
  function CsvColumn(lines: seq<string>, col: int): (r: Option<seq<string>>)
    ensures r.Some? <==> forall i | 0 <= i < |lines| :: CsvField(lines[i], col).Some?
    ensures r.Some? ==> |r.value| == |lines| && forall i | 0 <= i < |lines| :: Some(r.value[i]) == CsvField(lines[i], col)
  {
    AllSome(MapSeq(lines, line => CsvField(line, col)))
  }

  /** `key === '.' ? json : json[key]`; anything but an array of strings yields no names. */
  function SelectJson(json: Json, key: string): seq<string> {
    if key == "." then (if json.JStrings? then json.items else [])
    else if json.JObject? && key in json.fields && json.fields[key].JStrings? then json.fields[key].items
    else []
  }

  /** `if (key)`: a key selects JSON mode unless it is null or empty. */
  predicate JsonMode(source: Source) {
    source.key.Some? && source.key.value != []
  }

  /** `if (col)`, reached without a key: a column selects CSV mode unless it is null or 0. */
  predicate CsvMode(source: Source) {
    !JsonMode(source) && source.col.Some? && source.col.value != 0
  }

  /** CSV mode on a body: the column when every kept line has it; otherwise the throw ends in the catch. */
  function CsvNames(body: string, col: int): (r: seq<string>)
    ensures forall i | 0 <= i < |r| :: '"' !in r[i] && ',' !in r[i]
    ensures CsvColumn(PlainLines(body), col).None? ==> r == []
    ensures CsvColumn(PlainLines(body), col).Some? ==> r == CsvColumn(PlainLines(body), col).value
  {
    match CsvColumn(PlainLines(body), col)
    case None => []
    case Some(fields) => fields
  }

  /**
   * fetchData: a failed response, a body that is not JSON where JSON is
   * wanted, or a missing CSV column all end in the catch and yield `[]`.
   */
  function Fetch(source: Source): (r: seq<string>)
    ensures !source.response.ok ==> r == []
    ensures JsonMode(source) && source.response.json.None? ==> r == []
    ensures CsvMode(source) ==> forall i | 0 <= i < |r| :: '"' !in r[i] && ',' !in r[i]
    ensures !JsonMode(source) && !CsvMode(source) ==> forall i | 0 <= i < |r| :: ListEntry(r[i])
    ensures source.response.ok && JsonMode(source) && source.response.json.Some?
            ==> r == SelectJson(source.response.json.value, source.key.value)
    ensures source.response.ok && CsvMode(source) ==> r == CsvNames(source.response.body, source.col.value)
    ensures source.response.ok && !JsonMode(source) && !CsvMode(source) ==> r == PlainLines(source.response.body)
  {
    var response := source.response;
    if !response.ok then []
    else if JsonMode(source) then
      match response.json
      case None => []
      case Some(json) => SelectJson(json, source.key.value)
    else if CsvMode(source) then CsvNames(response.body, source.col.value)
    else PlainLines(response.body)
  }

  /** `fetchData(url, null, null)`: the plain-mode source of a response. */
  function PlainSource(response: Response): Source {
    Source(response, None, None)
  }

  /** A column of 0 is falsy: it reads the body in plain mode, not its first CSV column. */
  lemma ZeroColumnIsPlain(response: Response, key: Option<string>)
    requires response.ok && (key.None? || key.value == [])
    ensures Fetch(Source(response, key, Some(0))) == PlainLines(response.body)
    ensures Fetch(Source(response, key, None)) == PlainLines(response.body)
  {
  }

  /** An empty key is falsy like a null one: the source is read as text. */
  lemma EmptyKeyIsText(response: Response, col: Option<int>)
    ensures Fetch(Source(response, Some([]), col)) == Fetch(Source(response, None, col))
  {
  }

  /** Every plain-mode name is also an entry the comment-dropping file parser finds. */
  lemma PlainLinesWithinParseList(body: string)
    ensures forall x | x in PlainLines(body) :: x in ParseList(body)
  {
    var lines := Split(body, '\n');
    var normalized := MapSeq(lines, Normalize);
    var kept := Filter(lines, IsListLine);
    assert PlainLines(body) == Filter(normalized, IsDataLine);
    assert ParseList(body) == MapSeq(kept, Normalize);
    forall x | x in PlainLines(body) ensures x in ParseList(body) {
      var j :| 0 <= j < |normalized| && normalized[j] == x;
      NormalizeIsCanonical(lines[j]);
      if StartsWith(lines[j], "#") {
        NormalizeKeepsHash(lines[j]);
      }
      assert IsListLine(lines[j]);
      var i :| 0 <= i < |kept| && kept[i] == lines[j];
      assert MapSeq(kept, Normalize)[i] == x;
    }
  }

  /** A body without a line break is one line: kept once normalised, or dropped. */
  lemma PlainSingleLine(line: string)
    requires '\n' !in line
    ensures PlainLines(line) == (if IsDataLine(Normalize(line)) then [Normalize(line)] else [])
  {
    SplitWithoutSeparator(line, '\n');
    var normalized := MapSeq(Split(line, '\n'), Normalize);
    assert normalized == [Normalize(line)];
    assert PlainLines(line) == Filter(normalized, IsDataLine);
    if IsDataLine(Normalize(line)) {
      FilterAll(normalized, IsDataLine);
    } else {
      FilterNone(normalized, IsDataLine);
    }
  }

  /**
   * The fetcher tests for `#` after trimming, the file parsers before: an
   * indented comment is dropped by the one and stored by the other.
   */
  lemma IndentedCommentFetchedAway(comment: string)
    requires Canonical(comment) && StartsWith(comment, "#")
    ensures PlainLines(" " + comment) == []
    ensures ParseList(" " + comment) == [comment]
  {
    IndentedCommentLeaks(comment);
    IndentedLine(comment);
    PlainSingleLine(" " + comment);
  }
}
