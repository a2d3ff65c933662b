/** The JavaScript string operations the statement importer relies on:
    `includes`, `startsWith`, ASCII `toLowerCase`, `join`, `trim`,
    `split(c)[0]`, `replace(/,/g, '')`, case-insensitive `replace` of the
    first occurrence, and the decimal rendering of a non-negative integer. */
module Strings {

  // ---------------------------------------------------------------------
  // Substring search
  // ---------------------------------------------------------------------

  /** `s.startsWith(k)` */
  predicate StartsWith(s: string, k: string) {
    |k| <= |s| && s[..|k|] == k
  }

  /** `s.includes(k)` */
  predicate Contains(s: string, k: string)
    decreases |s|
  {
    StartsWith(s, k) || (|s| > 0 && Contains(s[1..], k))
  }

  /** k occurs in s starting at position p. */
  predicate OccursAt(s: string, k: string, p: int) {
    0 <= p && p + |k| <= |s| && s[p..p + |k|] == k
  }

  /** `includes` holds exactly when there is a position at which k occurs. */
  lemma {:induction false} ContainsIff(s: string, k: string)
    ensures Contains(s, k) <==> exists p :: OccursAt(s, k, p)
    decreases |s|
  {
    if StartsWith(s, k) {
      assert OccursAt(s, k, 0);
    } else if |s| == 0 {
    } else {
      ContainsIff(s[1..], k);
      forall p | OccursAt(s, k, p) ensures OccursAt(s[1..], k, p - 1) {
        assert p != 0;
        assert s[1..][p - 1..p - 1 + |k|] == s[p..p + |k|];
      }
      forall p | OccursAt(s[1..], k, p) ensures OccursAt(s, k, p + 1) {
        assert s[1..][p..p + |k|] == s[p + 1..p + 1 + |k|];
      }
    }
  }

  /** A witnessed occurrence gives `includes`. */
  lemma ContainsAt(s: string, k: string, p: nat)
    requires p + |k| <= |s| && s[p..p + |k|] == k
    ensures Contains(s, k)
  {
    assert OccursAt(s, k, p);
    ContainsIff(s, k);
  }

  /** A string cannot contain a key that has a character the string lacks. */
  lemma NotContainsMissingChar(s: string, k: string, c: char)
    requires c in k && c !in s
    ensures !Contains(s, k)
  {
    ContainsIff(s, k);
    var j :| 0 <= j < |k| && k[j] == c;
    forall p | 0 <= p && p + |k| <= |s| ensures !OccursAt(s, k, p) {
      assert s[p..p + |k|][j] == s[p + j] != k[j];
    }
  }

  /** A two-character key is absent when no neighbouring pair spells it. */
  lemma NotContainsPair(s: string, a: char, b: char)
    requires forall i :: 0 <= i < |s| - 1 ==> !(s[i] == a && s[i + 1] == b)
    ensures !Contains(s, [a, b])
  {
    ContainsIff(s, [a, b]);
    forall p | 0 <= p && p + 2 <= |s| ensures !OccursAt(s, [a, b], p) {
      assert s[p..p + 2][0] == s[p] && s[p..p + 2][1] == s[p + 1];
    }
  }

  /** A key longer than the string does not occur in it. */
  lemma NotContainsLonger(s: string, k: string)
    requires |s| < |k|
    ensures !Contains(s, k)
  {
    ContainsIff(s, k);
  }

  /** An occurrence in a part is an occurrence in `a + [c] + b`. */
  lemma ContainsInParts(a: string, c: char, b: string, k: string)
    ensures Contains(a, k) || Contains(b, k) ==> Contains(a + [c] + b, k)
  {
    var s := a + [c] + b;
    ContainsIff(s, k);
    ContainsIff(a, k);
    ContainsIff(b, k);
    forall p | OccursAt(a, k, p) ensures OccursAt(s, k, p) {
      assert s[p..p + |k|] == a[p..p + |k|];
    }
    forall p | OccursAt(b, k, p) ensures OccursAt(s, k, p + |a| + 1) {
      assert s[p + |a| + 1..p + |a| + 1 + |k|] == b[p..p + |k|];
    }
  }

  /** One occurrence in `a + [c] + b` lies in a, in b, or covers the c. */
  lemma OccurrenceInPart(a: string, c: char, b: string, k: string, p: int)
    requires OccursAt(a + [c] + b, k, p)
    ensures OccursAt(a, k, p) || OccursAt(b, k, p - |a| - 1) || c in k
  {
    var s := a + [c] + b;
    assert forall j :: 0 <= j < |k| ==> s[p + j] == k[j] by {
      forall j | 0 <= j < |k| ensures s[p + j] == k[j] {
        assert s[p..p + |k|][j] == s[p + j];
      }
    }
    if p + |k| <= |a| {
      assert s[p..p + |k|] == a[p..p + |k|];
    } else if p > |a| {
      assert s[p..p + |k|] == b[p - |a| - 1..p - |a| - 1 + |k|];
    } else {
      assert s[p + (|a| - p)] == k[|a| - p];
    }
  }

  /** An occurrence of a key free of c in `a + [c] + b` lies in a or in b. */
  lemma ContainsOnlyInParts(a: string, c: char, b: string, k: string)
    requires c !in k
    ensures Contains(a + [c] + b, k) ==> Contains(a, k) || Contains(b, k)
  {
    var s := a + [c] + b;
    ContainsIff(s, k);
    ContainsIff(a, k);
    ContainsIff(b, k);
    forall p | OccursAt(s, k, p) ensures OccursAt(a, k, p) || OccursAt(b, k, p - |a| - 1) {
      OccurrenceInPart(a, c, b, k, p);
    }
  }

  /** A key without the separator c occurs in `a + [c] + b` exactly when it
      occurs in a or in b. */
  lemma ContainsSplit(a: string, c: char, b: string, k: string)
    requires c !in k
    ensures Contains(a + [c] + b, k) <==> Contains(a, k) || Contains(b, k)
  {
    ContainsInParts(a, c, b, k);
    ContainsOnlyInParts(a, c, b, k);
  }

  // ---------------------------------------------------------------------
  // Lower-casing
  // ---------------------------------------------------------------------

  /** `toLowerCase` on one character (only A-Z are mapped). */
  function LowerChar(c: char): char {
    if 'A' <= c <= 'Z' then (c as int + 32) as char else c
  }

  /** `s.toLowerCase()` */
  function Lower(s: string): (r: string)
    ensures |r| == |s|
    ensures forall i :: 0 <= i < |s| ==> r[i] == LowerChar(s[i])
  {
    if s == [] then [] else [LowerChar(s[0])] + Lower(s[1..])
  }

  lemma LowerAppend(a: string, b: string)
    ensures Lower(a + b) == Lower(a) + Lower(b)
  {
  }

  // ---------------------------------------------------------------------
  // Joining, splitting, removing
  // ---------------------------------------------------------------------

  /** `parts.join(sep)` for a one-character separator. */
  function Join(parts: seq<string>, sep: char): string
    decreases |parts|
  {
    if |parts| == 0 then ""
    else if |parts| == 1 then parts[0]
    else parts[0] + [sep] + Join(parts[1..], sep)
  }

  /** A non-empty key without the separator occurs in the joined string
      exactly when it occurs in one of the parts. */
  lemma {:induction false} ContainsJoin(parts: seq<string>, sep: char, k: string)
    requires sep !in k && |k| > 0
    ensures Contains(Join(parts, sep), k) <==> exists i :: 0 <= i < |parts| && Contains(parts[i], k)
    decreases |parts|
  {
    if |parts| == 0 {
      NotContainsLonger("", k);
    } else if |parts| == 1 {
    } else {
      ContainsJoin(parts[1..], sep, k);
      ContainsSplit(parts[0], sep, Join(parts[1..], sep), k);
      if exists i :: 0 <= i < |parts| && Contains(parts[i], k) {
        var i :| 0 <= i < |parts| && Contains(parts[i], k);
        if i > 0 {
          assert parts[1..][i - 1] == parts[i];
        }
      }
      if exists i :: 0 <= i < |parts[1..]| && Contains(parts[1..][i], k) {
        var i :| 0 <= i < |parts[1..]| && Contains(parts[1..][i], k);
        assert parts[i + 1] == parts[1..][i];
      }
    }
  }

  /** `s.replace(/c/g, '')`: every occurrence of c removed. */
  function RemoveAll(s: string, c: char): (r: string)
    ensures c !in r
    ensures forall x :: x in r <==> x in s && x != c
    ensures |r| <= |s|
  {
    if s == [] then []
    else if s[0] == c then RemoveAll(s[1..], c)
    else [s[0]] + RemoveAll(s[1..], c)
  }

  /** Removal works character by character: a single character is kept
      exactly when it is not c. */
  lemma RemoveAllSingle(x: char, c: char)
    ensures RemoveAll([x], c) == if x == c then [] else [x]
  {
    assert [x][1..] == [];
  }

  /** Removal distributes over concatenation, so together with
      `RemoveAllSingle` every character other than c is kept, in order and
      with its count. */
  lemma {:induction false} RemoveAllAppend(a: string, b: string, c: char)
    ensures RemoveAll(a + b, c) == RemoveAll(a, c) + RemoveAll(b, c)
    decreases |a|
  {
    if a == [] {
      assert a + b == b;
    } else {
      assert (a + b)[0] == a[0];
      assert (a + b)[1..] == a[1..] + b;
      RemoveAllAppend(a[1..], b, c);
    }
  }

  /** `s.split(c)[0]`: the text before the first c (all of s without one). */
  function BeforeFirst(s: string, c: char): (r: string)
    ensures StartsWith(s, r)
    ensures c !in r
    ensures |r| < |s| ==> s[|r|] == c
    ensures c !in s ==> r == s
  {
    if s == [] then []
    else if s[0] == c then []
    else [s[0]] + BeforeFirst(s[1..], c)
  }

  // ---------------------------------------------------------------------
  // Whitespace and trimming
  // ---------------------------------------------------------------------

  /** The characters JavaScript's `trim` and `parseFloat` treat as white
      space: the WhiteSpace and LineTerminator productions of ECMAScript. */
  predicate IsSpace(c: char) {
    var n := c as int;
    n == 0x09 || n == 0x0A || n == 0x0B || n == 0x0C || n == 0x0D || n == 0x20
    || n == 0xA0 || n == 0x1680 || (0x2000 <= n <= 0x200A) || n == 0x2028
    || n == 0x2029 || n == 0x202F || n == 0x205F || n == 0x3000 || n == 0xFEFF
  }

  /** `trimStart` */
  function TrimStart(s: string): (r: string)
    ensures |r| <= |s| && r == s[|s| - |r|..]
    ensures forall i :: 0 <= i < |s| - |r| ==> IsSpace(s[i])
    ensures |r| > 0 ==> !IsSpace(r[0])
  {
    if |s| > 0 && IsSpace(s[0]) then TrimStart(s[1..]) else s
  }

  lemma TrimStartOfNonSpace(s: string)
    requires s != [] && !IsSpace(s[0])
    ensures TrimStart(s) == s
  {
  }

  /** `trimEnd` */
  function TrimEnd(s: string): (r: string)
    ensures |r| <= |s| && r == s[..|r|]
    ensures forall i :: |r| <= i < |s| ==> IsSpace(s[i])
    ensures |r| > 0 ==> !IsSpace(r[|r| - 1])
  {
    if |s| > 0 && IsSpace(s[|s| - 1]) then TrimEnd(s[..|s| - 1]) else s
  }

  /** `trim` */
  function Trim(s: string): string {
    TrimEnd(TrimStart(s))
  }

  /** The result of `trim` is a slice of s that neither starts nor ends
      with white space, and everything cut off on either side is white
      space. */
  lemma TrimSpec(s: string)
    ensures exists i, j :: 0 <= i <= j <= |s| && Trim(s) == s[i..j]
                           && (forall m :: 0 <= m < i ==> IsSpace(s[m]))
                           && (forall m :: j <= m < |s| ==> IsSpace(s[m]))
    ensures |Trim(s)| > 0 ==> !IsSpace(Trim(s)[0]) && !IsSpace(Trim(s)[|Trim(s)| - 1])
  {
    var i, j := TrimBounds(s);
    TrimEnds(s);
  }

  /** Where the slice kept by `trim` starts and ends. */
  lemma TrimBounds(s: string) returns (i: nat, j: nat)
    ensures i <= j <= |s| && Trim(s) == s[i..j]
    ensures forall m :: 0 <= m < i ==> IsSpace(s[m])
    ensures forall m :: j <= m < |s| ==> IsSpace(s[m])
  {
    var t := TrimStart(s);
    var r := TrimEnd(t);
    i := |s| - |t|;
    j := i + |r|;
    assert t == s[i..];
    assert r == t[..|r|];
    forall m | j <= m < |s| ensures IsSpace(s[m]) {
      var k := m - i;
      assert |r| <= k < |t| && IsSpace(t[k]);
      assert s[m] == t[k];
    }
  }

  lemma TrimEnds(s: string)
    ensures |Trim(s)| > 0 ==> !IsSpace(Trim(s)[0]) && !IsSpace(Trim(s)[|Trim(s)| - 1])
  {
    var t := TrimStart(s);
    var r := TrimEnd(t);
    if |r| > 0 {
      assert r[0] == t[0];
    }
  }

  // ---------------------------------------------------------------------
  // Case-insensitive search and replace of the first occurrence
  // ---------------------------------------------------------------------

  /** The case-insensitive pattern p matches s at position i (the regular
      expression flag `i`; the patterns used here are plain ASCII). */
  predicate MatchesAtIgnoreCase(s: string, p: string, i: int) {
    0 <= i && i + |p| <= |s| && Lower(s[i..i + |p|]) == Lower(p)
  }

  /** The first position at or after `from` where p matches, if any. */
  function FindIgnoreCase(s: string, p: string, from: nat): (r: int)
    requires from <= |s|
    ensures r == -1 || (from <= r && MatchesAtIgnoreCase(s, p, r))
    ensures forall i :: from <= i && (r == -1 || i < r) ==> !MatchesAtIgnoreCase(s, p, i)
    decreases |s| - from
  {
    if from + |p| > |s| then -1
    else if Lower(s[from..from + |p|]) == Lower(p) then from
    else FindIgnoreCase(s, p, from + 1)
  }

  /** `s.replace(/p/i, '')` */
  function RemoveFirstIgnoreCase(s: string, p: string): string {
    var i := FindIgnoreCase(s, p, 0);
    if i == -1 then s else s[..i] + s[i + |p|..]
  }

  /** The first case-insensitive occurrence of p is cut out; without one,
      s is returned unchanged. */
  lemma RemoveFirstSpec(s: string, p: string)
    ensures (forall i :: !MatchesAtIgnoreCase(s, p, i)) ==> RemoveFirstIgnoreCase(s, p) == s
    ensures forall i :: MatchesAtIgnoreCase(s, p, i)
                        && (forall j :: 0 <= j < i ==> !MatchesAtIgnoreCase(s, p, j))
                        ==> RemoveFirstIgnoreCase(s, p) == s[..i] + s[i + |p|..]
  {
    var r := FindIgnoreCase(s, p, 0);
    forall i | MatchesAtIgnoreCase(s, p, i) && (forall j :: 0 <= j < i ==> !MatchesAtIgnoreCase(s, p, j))
      ensures r == i
    {
      assert r != -1 && r <= i;
      assert MatchesAtIgnoreCase(s, p, r);
    }
  }

  // ---------------------------------------------------------------------
  // Decimal rendering of non-negative integers (template literals)
  // ---------------------------------------------------------------------

  predicate IsDigit(c: char) {
    '0' <= c <= '9'
  }

  function DigitChar(d: nat): (c: char)
    requires d < 10
    ensures IsDigit(c)
  {
    ('0' as int + d) as char
  }

  /** `${n}` for a non-negative integer: its decimal digits, most
      significant first, without leading zeros. */
  function NatToString(n: nat): (r: string)
    ensures |r| >= 1 && (n >= 10 ==> |r| >= 2) && (n < 10 ==> |r| == 1)
    ensures forall i :: 0 <= i < |r| ==> IsDigit(r[i])
    ensures |r| > 1 ==> r[0] != '0'
    decreases n
  {
    if n < 10 then [DigitChar(n)] else NatToString(n / 10) + [DigitChar(n % 10)]
  }

  /** Different numbers render differently. */
  lemma {:induction false} NatToStringInjective(a: nat, b: nat)
    ensures NatToString(a) == NatToString(b) ==> a == b
    decreases a
  {
    var sa, sb := NatToString(a), NatToString(b);
    if sa == sb {
      if a < 10 || b < 10 {
        assert a < 10 && b < 10;
        assert sa[0] == DigitChar(a) && sb[0] == DigitChar(b);
      } else {
        assert sa[|sa| - 1] == DigitChar(a % 10) && sb[|sb| - 1] == DigitChar(b % 10);
        assert sa[..|sa| - 1] == NatToString(a / 10);
        assert sb[..|sb| - 1] == NatToString(b / 10);
        NatToStringInjective(a / 10, b / 10);
      }
    }
  }

  /** The text before the first c of `x + [c] + y` is x when x is free of c. */
  lemma {:induction false} BeforeFirstSeparator(x: string, y: string, c: char)
    requires c !in x
    ensures BeforeFirst(x + [c] + y, c) == x
    decreases |x|
  {
    if x != [] {
      assert (x + [c] + y)[1..] == x[1..] + [c] + y;
      BeforeFirstSeparator(x[1..], y, c);
    }
  }

  /** In `x + [c] + y`, a prefix x free of c is determined by the whole. */
  lemma PrefixBeforeSeparator(x: string, y: string, x': string, y': string, c: char)
    requires c !in x && c !in x'
    requires x + [c] + y == x' + [c] + y'
    ensures x == x'
  {
    BeforeFirstSeparator(x, y, c);
    BeforeFirstSeparator(x', y', c);
  }
}
