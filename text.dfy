/** Option and Result: a missing file or value, and an operation that throws. */
module Wrappers {
  datatype Option<+T> = None | Some(value: T)

  datatype Result<+T, +E> = Ok(value: T) | Err(error: E)
}

/**
 * The ECMAScript string operations the core relies on (`trim`, `toLowerCase`,
 * `split`, `join`, `indexOf`, `lastIndexOf`, `startsWith`, `filter`, `map`),
 * over Dafny strings. One Dafny `char` is one Unicode scalar value, not one
 * UTF-16 code unit: a character outside the Basic Multilingual Plane has
 * length 1 here and 2 in JavaScript (see README, Left out).
 */
module Text {

  /** WhiteSpace and LineTerminator of ECMAScript: what `String.prototype.trim` removes. */
  predicate IsWhitespace(c: char) {
    || c == '\t' || c == '\n' || c == '\U{B}' || c == '\U{C}' || c == '\r' || c == ' '
    || c == '\U{A0}' || c == '\U{1680}' || ('\U{2000}' <= c <= '\U{200A}')
    || c == '\U{2028}' || c == '\U{2029}' || c == '\U{202F}' || c == '\U{205F}'
    || c == '\U{3000}' || c == '\U{FEFF}'
  }

  predicate IsAsciiLetter(c: char) { 'a' <= c <= 'z' || 'A' <= c <= 'Z' }

  predicate IsAsciiDigit(c: char) { '0' <= c <= '9' }

  predicate IsAsciiAlnum(c: char) { IsAsciiLetter(c) || IsAsciiDigit(c) }

  /** Leading whitespace removed: the longest suffix of `s` that does not start with whitespace. */
  function TrimStart(s: string): (r: string)
    ensures |r| <= |s| && r == s[|s| - |r|..]
    ensures r == [] || !IsWhitespace(r[0])
    ensures forall i | 0 <= i < |s| - |r| :: IsWhitespace(s[i])
  {
    if |s| > 0 && IsWhitespace(s[0]) then TrimStart(s[1..]) else s
  }

  /** Trailing whitespace removed: the longest prefix of `s` that does not end with whitespace. */
  function TrimEnd(s: string): (r: string)
    ensures |r| <= |s| && r == s[..|r|]
    ensures r == [] || !IsWhitespace(r[|r| - 1])
    ensures forall i | |r| <= i < |s| :: IsWhitespace(s[i])
  {
    if |s| > 0 && IsWhitespace(s[|s| - 1]) then TrimEnd(s[..|s| - 1]) else s
  }

  /** `s.trim()` */
  function Trim(s: string): (r: string)
    ensures |r| <= |s|
    ensures r == [] || (!IsWhitespace(r[0]) && !IsWhitespace(r[|r| - 1]))
  {
    TrimEnd(TrimStart(s))
  }

  /** Trimming only removes characters. */
  lemma TrimChars(s: string, c: char)
    ensures c in Trim(s) ==> c in s
  {
    if c in Trim(s) {
      var t := TrimStart(s);
      var i :| 0 <= i < |Trim(s)| && Trim(s)[i] == c;
      assert Trim(s)[i] == t[i];
      assert t[i] == s[|s| - |t| + i];
    }
  }

  /** A string that starts and ends with a non-whitespace character is its own trim. */
  lemma TrimUnframed(s: string)
    requires s == [] || (!IsWhitespace(s[0]) && !IsWhitespace(s[|s| - 1]))
    ensures Trim(s) == s
  {
  }

  /** Trimming keeps a first character that is not whitespace. */
  lemma TrimKeepsFirst(s: string)
    requires s != [] && !IsWhitespace(s[0])
    ensures Trim(s) != [] && Trim(s)[0] == s[0]
  {
    assert TrimStart(s) == s;
  }

  /** Trimming skips leading whitespace. */
  lemma TrimSkipsLeading(s: string)
    requires s != [] && IsWhitespace(s[0])
    ensures Trim(s) == Trim(s[1..])
  {
  }

  /** `s.trim() === s` exactly when `s` neither starts nor ends with whitespace. */
  lemma TrimIdentity(s: string)
    ensures Trim(s) == s <==> (s == [] || (!IsWhitespace(s[0]) && !IsWhitespace(s[|s| - 1])))
  {
    if s == [] || (!IsWhitespace(s[0]) && !IsWhitespace(s[|s| - 1])) {
      TrimUnframed(s);
    }
  }

  /** `toLowerCase` on one character (ASCII letters only). */
  function LowerChar(c: char): (r: char)
    ensures IsWhitespace(r) == IsWhitespace(c)
    ensures IsAsciiAlnum(r) == IsAsciiAlnum(c)
  {
    if 'A' <= c <= 'Z' then (c as int + 32) as char else c
  }

  /** `s.toLowerCase()` (ASCII letters only). */
  function Lower(s: string): (r: string)
    ensures |r| == |s|
  {
    seq(|s|, i requires 0 <= i < |s| => LowerChar(s[i]))
  }

  /** `s.trim().toLowerCase()`: the normal form of a line, a domain or an address. */
  function Normalize(s: string): string {
    Lower(Trim(s))
  }

  lemma LowerIdempotent(s: string)
    ensures Lower(Lower(s)) == Lower(s)
  {
  }

  /** Every slice of a lower-case string is lower case. */
  lemma LowerSlice(s: string, k: nat)
    requires k <= |s| && Lower(s) == s
    ensures Lower(s[k..]) == s[k..]
  {
    forall i | 0 <= i < |s| - k ensures Lower(s[k..])[i] == s[k..][i] {
      assert Lower(s)[k + i] == LowerChar(s[k + i]);
    }
  }

  /** A string without upper-case ASCII letters is its own lower-case form. */
  lemma LowerUnchanged(s: string)
    requires forall i | 0 <= i < |s| :: !('A' <= s[i] <= 'Z')
    ensures Lower(s) == s
  {
  }

  /** A normalised string is trimmed, lower case, and its own normal form. */
  lemma NormalizeIsCanonical(s: string)
    ensures Trim(Normalize(s)) == Normalize(s)
    ensures Lower(Normalize(s)) == Normalize(s)
    ensures Normalize(Normalize(s)) == Normalize(s)
    ensures |Normalize(s)| == |Trim(s)|
  {
    var t := Trim(s);
    var n := Lower(t);
    assert n == [] || (!IsWhitespace(n[0]) && !IsWhitespace(n[|n| - 1])) by {
      if n != [] {
        assert n[0] == LowerChar(t[0]);
        assert n[|n| - 1] == LowerChar(t[|t| - 1]);
      }
    }
    TrimUnframed(n);
    LowerIdempotent(t);
  }

  /** `s.startsWith(prefix)` */
  predicate StartsWith(s: string, prefix: string) {
    |prefix| <= |s| && s[..|prefix|] == prefix
  }

  /** `s.endsWith(suffix)` */
  predicate EndsWith(s: string, suffix: string) {
    |suffix| <= |s| && s[|s| - |suffix|..] == suffix
  }

  /** `s.indexOf(c, from)`: the first position at or after `from` holding `c`, or -1. */
  function IndexOf(s: string, c: char, from: nat): (r: int)
    ensures r == -1 || (from <= r < |s| && s[r] == c)
    ensures r == -1 ==> forall i | from <= i < |s| :: s[i] != c
    ensures r != -1 ==> forall i | from <= i < r :: s[i] != c
    decreases |s| - from
  {
    if from >= |s| then -1 else if s[from] == c then from else IndexOf(s, c, from + 1)
  }

  /** `s.lastIndexOf(c)`: the last position holding `c`, or -1. */
  function LastIndexOf(s: string, c: char): (r: int)
    ensures r == -1 || (0 <= r < |s| && s[r] == c)
    ensures forall i | r < i < |s| :: s[i] != c
  {
    if s == [] then -1
    else if s[|s| - 1] == c then |s| - 1
    else LastIndexOf(s[..|s| - 1], c)
  }

  /** The two properties of LastIndexOf determine it. */
  lemma LastIndexOfUnique(s: string, c: char, r: int)
    requires r == -1 || (0 <= r < |s| && s[r] == c)
    requires forall i | r < i < |s| :: s[i] != c
    ensures LastIndexOf(s, c) == r
  {
  }

  /**
   * `s.split(sep)` for a one-character separator: the pieces between
   * separators, so `k` separators give `k + 1` pieces, some possibly empty.
   */
  function Split(s: string, sep: char): (r: seq<string>)
    ensures |r| >= 1
    ensures forall i | 0 <= i < |r| :: sep !in r[i]
    ensures s == [] <==> r == [[]]
  {
    if s == [] then [[]]
    else
      var rest := Split(s[1..], sep);
      if s[0] == sep then [[]] + rest
      else [[s[0]] + rest[0]] + rest[1..]
  }

  /** `parts.join(sep)` */
  function Join(parts: seq<string>, sep: string): string {
    if |parts| == 0 then []
    else if |parts| == 1 then parts[0]
    else parts[0] + sep + Join(parts[1..], sep)
  }

  lemma {:induction false} JoinAppend(a: seq<string>, b: seq<string>, sep: string)
    requires a != [] && b != []
    ensures Join(a + b, sep) == Join(a, sep) + sep + Join(b, sep)
  {
    if |a| == 1 {
      assert (a + b)[1..] == b;
    } else {
      assert (a + b)[1..] == a[1..] + b;
      JoinAppend(a[1..], b, sep);
    }
  }

  /** Joining the pieces of a split restores the string. */
  lemma {:induction false} JoinSplit(s: string, sep: char)
    ensures Join(Split(s, sep), [sep]) == s
  {
    if s != [] {
      var rest := Split(s[1..], sep);
      JoinSplit(s[1..], sep);
      if s[0] == sep {
        assert Split(s, sep) == [[]] + rest;
        assert ([[]] + rest)[1..] == rest;
      } else {
        var parts := Split(s, sep);
        assert parts == [[s[0]] + rest[0]] + rest[1..];
        if |rest| == 1 {
          assert parts == [[s[0]] + rest[0]];
        } else {
          assert parts[1..] == rest[1..];
        }
      }
    }
  }

  lemma {:induction false} SplitWithoutSeparator(s: string, sep: char)
    requires sep !in s
    ensures Split(s, sep) == [s]
  {
    if s != [] {
      SplitWithoutSeparator(s[1..], sep);
      assert [s[0]] + s[1..] == s;
    }
  }

  lemma {:induction false} SplitAtSeparator(x: string, y: string, sep: char)
    requires sep !in x
    ensures Split(x + [sep] + y, sep) == [x] + Split(y, sep)
  {
    if x == [] {
      assert (x + [sep] + y)[1..] == y;
    } else {
      assert (x + [sep] + y)[1..] == x[1..] + [sep] + y;
      SplitAtSeparator(x[1..], y, sep);
      assert [x[0]] + x[1..] == x;
    }
  }

  /** Splitting a join of separator-free pieces gives the pieces back. */
  lemma {:induction false} SplitJoin(parts: seq<string>, sep: char)
    requires |parts| >= 1
    requires forall i | 0 <= i < |parts| :: sep !in parts[i]
    ensures Split(Join(parts, [sep]), sep) == parts
  {
    if |parts| == 1 {
      SplitWithoutSeparator(parts[0], sep);
    } else {
      SplitJoin(parts[1..], sep);
      SplitAtSeparator(parts[0], Join(parts[1..], [sep]), sep);
    }
  }

  /** The first piece of a split, seen from the string's first character. */
  lemma SplitFirst(s: string, sep: char)
    requires s != []
    ensures s[0] == sep ==> Split(s, sep)[0] == []
    ensures s[0] != sep ==> Split(s, sep)[0] != [] && Split(s, sep)[0][0] == s[0]
  {
  }

  /** The last piece of a split, seen from the string's last character. */
  lemma {:induction false} SplitLast(s: string, sep: char)
    requires s != []
    ensures var parts := Split(s, sep); var last := parts[|parts| - 1];
      && (s[|s| - 1] == sep ==> last == [])
      && (s[|s| - 1] != sep ==> last != [] && last[|last| - 1] == s[|s| - 1])
  {
    var rest := Split(s[1..], sep);
    if |s| > 1 {
      SplitLast(s[1..], sep);
      assert s[1..][|s[1..]| - 1] == s[|s| - 1];
    }
  }

  /** Two adjacent separators leave an empty piece (never the first one). */
  lemma {:induction false} SplitAdjacentSeparators(s: string, sep: char, k: nat)
    requires k + 1 < |s| && s[k] == sep && s[k + 1] == sep
    ensures exists j | 1 <= j < |Split(s, sep)| :: Split(s, sep)[j] == []
  {
    var rest := Split(s[1..], sep);
    if k == 0 {
      SplitFirst(s[1..], sep);
      assert Split(s, sep)[1] == rest[0] == [];
    } else {
      SplitAdjacentSeparators(s[1..], sep, k - 1);
      var j :| 1 <= j < |rest| && rest[j] == [];
      if s[0] == sep {
        assert Split(s, sep)[j + 1] == [];
      } else {
        assert Split(s, sep)[j] == [];
      }
    }
  }

  /** Every character of a join is a separator character or a character of some piece. */
  lemma {:induction false} JoinChars(parts: seq<string>, sep: string, c: char)
    requires c in Join(parts, sep)
    ensures c in sep || exists i | 0 <= i < |parts| :: c in parts[i]
  {
    if |parts| > 1 {
      if c !in parts[0] && c !in sep {
        JoinChars(parts[1..], sep, c);
        var i :| 0 <= i < |parts[1..]| && c in parts[1..][i];
        assert c in parts[i + 1];
      }
    }
  }

  /** Splitting the lower-cased string lower-cases each piece. */
  lemma {:induction false} SplitLower(s: string, sep: char)
    requires !IsAsciiLetter(sep)
    ensures Split(Lower(s), sep) == MapSeq(Split(s, sep), Lower)
  {
    if s != [] {
      SplitLower(s[1..], sep);
      assert [s[0]] + s[1..] == s;
      SplitLowerStep(s[0], s[1..], sep);
    }
  }

  /** One more character in front keeps splitting and lower-casing interchangeable. */
  lemma SplitLowerStep(head: char, tail: string, sep: char)
    requires !IsAsciiLetter(sep)
    requires Split(Lower(tail), sep) == MapSeq(Split(tail, sep), Lower)
    ensures Split(Lower([head] + tail), sep) == MapSeq(Split([head] + tail, sep), Lower)
  {
    var c := LowerChar(head);
    var rest := Split(tail, sep);
    LowerCons(head, tail);
    SplitCons(c, Lower(tail), sep);
    SplitCons(head, tail, sep);
    assert (c == sep) == (head == sep);
    if head == sep {
      MapLowerCons([], rest);
    } else {
      LowerCons(head, rest[0]);
      MapLowerCons([head] + rest[0], rest[1..]);
      MapLowerCons(rest[0], rest[1..]);
      assert [rest[0]] + rest[1..] == rest;
    }
  }

  lemma LowerCons(c: char, s: string)
    ensures Lower([c] + s) == [LowerChar(c)] + Lower(s)
  {
  }

  lemma SplitCons(c: char, s: string, sep: char)
    ensures Split([c] + s, sep)
      == if c == sep then [[]] + Split(s, sep) else [[c] + Split(s, sep)[0]] + Split(s, sep)[1..]
  {
    assert ([c] + s)[1..] == s;
  }

  lemma MapLowerCons(first: string, rest: seq<string>)
    ensures MapSeq([first] + rest, Lower) == [Lower(first)] + MapSeq(rest, Lower)
  {
  }

  /** `xs.filter(p)` */
  function Filter<T>(xs: seq<T>, p: T -> bool): (r: seq<T>)
    ensures |r| <= |xs|
    ensures forall i | 0 <= i < |r| :: r[i] in xs && p(r[i])
    ensures forall i | 0 <= i < |xs| && p(xs[i]) :: xs[i] in r
    ensures |r| == |xs| <==> forall i | 0 <= i < |xs| :: p(xs[i])
  {
    if xs == [] then []
    else if p(xs[0]) then [xs[0]] + Filter(xs[1..], p)
    else Filter(xs[1..], p)
  }

  lemma {:induction false} FilterAppend<T>(a: seq<T>, b: seq<T>, p: T -> bool)
    ensures Filter(a + b, p) == Filter(a, p) + Filter(b, p)
  {
    if a != [] {
      var x, rest := a[0], a[1..];
      assert a == [x] + rest;
      assert a + b == [x] + (rest + b);
      FilterCons(x, rest + b, p);
      FilterCons(x, rest, p);
      FilterAppend(rest, b, p);
    } else {
      assert a + b == b;
    }
  }

  /** Filtering a list with a first element: that element if it passes, then the rest filtered. */
  lemma FilterCons<T>(x: T, xs: seq<T>, p: T -> bool)
    ensures Filter([x] + xs, p) == (if p(x) then [x] else []) + Filter(xs, p)
  {
    assert ([x] + xs)[1..] == xs;
  }

  /** Filtering keeps everything when every element passes. */
  lemma {:induction false} FilterAll<T>(xs: seq<T>, p: T -> bool)
    requires forall i | 0 <= i < |xs| :: p(xs[i])
    ensures Filter(xs, p) == xs
  {
    if xs != [] {
      FilterAll(xs[1..], p);
      assert [xs[0]] + xs[1..] == xs;
    }
  }

  /** Filtering keeps nothing when no element passes. */
  lemma FilterNone<T>(xs: seq<T>, p: T -> bool)
    requires forall i | 0 <= i < |xs| :: !p(xs[i])
    ensures Filter(xs, p) == []
  {
    var r := Filter(xs, p);
    if r != [] {
      var j :| 0 <= j < |xs| && xs[j] == r[0];
    }
  }

  /** `xs.map(f)` */
  function MapSeq<T, U>(xs: seq<T>, f: T -> U): (r: seq<U>)
    ensures |r| == |xs|
    ensures forall i | 0 <= i < |xs| :: r[i] == f(xs[i])
  {
    seq(|xs|, i requires 0 <= i < |xs| => f(xs[i]))
  }

  /** Keeping then mapping: a value comes out exactly when some kept input maps to it. */
  lemma FilterThenMapMembers<T, U>(xs: seq<T>, p: T -> bool, f: T -> U)
    ensures forall y :: y in MapSeq(Filter(xs, p), f) <==> exists k | 0 <= k < |xs| :: p(xs[k]) && f(xs[k]) == y
  {
    var kept := Filter(xs, p);
    var r := MapSeq(kept, f);
    forall y | y in r ensures exists k | 0 <= k < |xs| :: p(xs[k]) && f(xs[k]) == y {
      var i :| 0 <= i < |r| && r[i] == y;
      var k :| 0 <= k < |xs| && xs[k] == kept[i];
    }
    forall k | 0 <= k < |xs| && p(xs[k]) ensures f(xs[k]) in r {
      var i :| 0 <= i < |kept| && kept[i] == xs[k];
      assert r[i] == f(xs[k]);
    }
  }

  /** Mapping then keeping: a value comes out exactly when some input maps to a kept value. */
  lemma MapThenFilterMembers<T, U>(xs: seq<T>, f: T -> U, q: U -> bool)
    ensures forall y :: y in Filter(MapSeq(xs, f), q) <==> exists k | 0 <= k < |xs| :: q(f(xs[k])) && f(xs[k]) == y
  {
    var mapped := MapSeq(xs, f);
    var r := Filter(mapped, q);
    forall y | y in r ensures exists k | 0 <= k < |xs| :: q(f(xs[k])) && f(xs[k]) == y {
      var k :| 0 <= k < |mapped| && mapped[k] == y;
    }
    forall k | 0 <= k < |xs| && q(f(xs[k])) ensures f(xs[k]) in r {
      assert q(mapped[k]);
    }
  }

  /** `new Set(xs)` */
  function SetOf<T>(xs: seq<T>): (r: set<T>)
    ensures forall i | 0 <= i < |xs| :: xs[i] in r
    ensures forall x | x in r :: x in xs
  {
    set x | x in xs
  }

  /** A template line `${xs.join('\n')}`: an empty group still leaves an empty line. */
  function Lift(group: seq<string>): seq<string> {
    if group == [] then [[]] else group
  }

  /** The lines of a template whose lines are the '\n'-joined groups. */
  function FlattenGroups(groups: seq<seq<string>>): (r: seq<string>)
    ensures groups != [] ==> r != []
  {
    if groups == [] then [] else Lift(groups[0]) + FlattenGroups(groups[1..])
  }

  /** Joining joined groups is joining the groups' lines. */
  lemma {:induction false} JoinGroups(groups: seq<seq<string>>, sep: string)
    requires groups != []
    ensures Join(MapSeq(groups, g => Join(g, sep)), sep) == Join(FlattenGroups(groups), sep)
  {
    var joined := MapSeq(groups, g => Join(g, sep));
    if |groups| == 1 {
      assert FlattenGroups(groups) == Lift(groups[0]);
    } else {
      JoinGroups(groups[1..], sep);
      assert joined[1..] == MapSeq(groups[1..], g => Join(g, sep));
      JoinAppend(Lift(groups[0]), FlattenGroups(groups[1..]), sep);
    }
  }

  lemma {:induction false} FlattenAppend(groups: seq<seq<string>>, last: seq<string>)
    ensures FlattenGroups(groups + [last]) == FlattenGroups(groups) + Lift(last)
  {
    if groups != [] {
      assert (groups + [last])[1..] == groups[1..] + [last];
      FlattenAppend(groups[1..], last);
    } else {
      assert groups + [last] == [last];
    }
  }
}
