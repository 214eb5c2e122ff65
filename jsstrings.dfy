/**
 * The ECMAScript string primitives the generator relies on, stated over
 * `seq<char>`: `search` with a pattern free of regular-expression
 * metacharacters, `substring` with its clamping and argument swap,
 * `split` on one separator character, `join`, and `trim`.
 */
module JsStrings {

  /** `p` occurs in `s` starting at index `i`. */
  predicate MatchAt(s: string, p: string, i: int) {
    0 <= i && i + |p| <= |s| && s[i..i + |p|] == p
  }

  /** `p` occurs somewhere in `s`. */
  predicate Occurs(s: string, p: string) {
    exists i | 0 <= i <= |s| - |p| :: MatchAt(s, p, i)
  }

  /** First occurrence of `p` in `s` at or after index `k`, or -1. */
  function SearchFrom(s: string, p: string, k: nat): (r: int)
    ensures r == -1 || (k <= r && MatchAt(s, p, r))
    ensures forall i :: k <= i && (r == -1 || i < r) ==> !MatchAt(s, p, i)
    decreases |s| - k
  {
    if k + |p| > |s| then -1
    else if s[k..k + |p|] == p then k
    else SearchFrom(s, p, k + 1)
  }

  /**
   * `s.search(p)`: the index of the first occurrence of `p`, or -1 when
   * there is none.
   */
  function Search(s: string, p: string): (r: int)
    ensures r == -1 <==> !Occurs(s, p)
    ensures r != -1 ==> MatchAt(s, p, r)
    ensures forall i :: 0 <= i < r ==> !MatchAt(s, p, i)
  {
    SearchFrom(s, p, 0)
  }

  /** An occurrence with none before it is what `search` finds. */
  lemma SearchIsFirst(s: string, p: string, r: nat)
    requires MatchAt(s, p, r)
    requires forall i :: 0 <= i < r ==> !MatchAt(s, p, i)
    ensures Search(s, p) == r
  {
    assert Occurs(s, p);
  }

  /** An index argument of `substring`, clamped into `[0, n]`. */
  function Clamp(i: int, n: nat): (r: nat)
    ensures r <= n
    ensures 0 <= i <= n ==> r == i
  {
    if i < 0 then 0 else if i > n then n else i
  }

  /**
   * `s.substring(a, b)`: both indices are clamped into the string, and
   * when the first exceeds the second the two are swapped.
   */
  function Substring(s: string, a: int, b: int): (r: string)
    ensures 0 <= a <= b <= |s| ==> r == s[a..b]
    ensures 0 <= b <= a <= |s| ==> r == s[b..a]
    ensures |r| <= |s|
  {
    var x, y := Clamp(a, |s|), Clamp(b, |s|);
    if x <= y then s[x..y] else s[y..x]
  }

  /**
   * Out-of-range indices act as the nearest end of the string, and the
   * order of the two arguments does not matter.
   */
  lemma SubstringClamps(s: string, a: int, b: int)
    ensures a < 0 ==> Substring(s, a, b) == Substring(s, 0, b)
    ensures a > |s| ==> Substring(s, a, b) == Substring(s, |s|, b)
    ensures b < 0 ==> Substring(s, a, b) == Substring(s, a, 0)
    ensures b > |s| ==> Substring(s, a, b) == Substring(s, a, |s|)
    ensures Substring(s, a, b) == Substring(s, b, a)
  {
  }

  /** `s.substring(a)`: everything from the clamped index `a` on. */
  function SubstringFrom(s: string, a: int): (r: string)
    ensures 0 <= a <= |s| ==> r == s[a..]
    ensures a < 0 ==> r == s
    ensures a > |s| ==> r == []
  {
    Substring(s, a, |s|)
  }

  /** Concatenating lists of strings is associative; stated once so callers need not rediscover it. */
  lemma AppendAssoc(a: seq<string>, b: seq<string>, c: seq<string>)
    ensures a + b + c == a + (b + c)
  {
  }

  /** `parts.join(sep)`: the parts in order with `sep` between neighbours. */
  function Join(parts: seq<string>, sep: string): (r: string)
    ensures |parts| == 0 ==> r == ""
  {
    if |parts| == 0 then ""
    else if |parts| == 1 then parts[0]
    else parts[0] + sep + Join(parts[1..], sep)
  }

  /** The number of occurrences of `c` in `s`. */
  function CountChar(s: string, c: char): nat {
    if |s| == 0 then 0 else (if s[0] == c then 1 else 0) + CountChar(s[1..], c)
  }

  /**
   * `s.split(sep)` for a one-character separator: the segments between
   * the separators, in order, one more than there are separators; joined
   * back with the separator they give `s` again, and none of them contains
   * the separator.
   */
  function Split(s: string, sep: char): (r: seq<string>)
    ensures |r| == CountChar(s, sep) + 1
    ensures Join(r, [sep]) == s
    ensures forall i :: 0 <= i < |r| ==> sep !in r[i]
  {
    if |s| == 0 then [""]
    else
      var rest := Split(s[1..], sep);
      if s[0] == sep then
        assert s == [sep] + Join(rest, [sep]);
        [""] + rest
      else
        assert s == [s[0]] + Join(rest, [sep]);
        [[s[0]] + rest[0]] + rest[1..]
  }

  /**
   * The characters `trim` removes: ECMAScript WhiteSpace (tab, vertical
   * tab, form feed, space, no-break space, zero width no-break space and
   * the Unicode space separators) and LineTerminator.
   */
  predicate IsWhitespace(c: char) {
    c == '\t' || c == '\n' || c == '\U{0B}' || c == '\U{0C}' || c == '\r' ||
    c == ' ' || c == '\U{A0}' || c == '\U{1680}' ||
    ('\U{2000}' <= c <= '\U{200A}') ||
    c == '\U{2028}' || c == '\U{2029}' || c == '\U{202F}' || c == '\U{205F}' ||
    c == '\U{3000}' || c == '\U{FEFF}'
  }

  /** The index where the whitespace run starting at `k` ends. */
  function LeadingEnd(s: string, k: nat): (i: nat)
    requires k <= |s|
    ensures k <= i <= |s|
    ensures forall m :: k <= m < i ==> IsWhitespace(s[m])
    ensures i == |s| || !IsWhitespace(s[i])
    decreases |s| - k
  {
    if k < |s| && IsWhitespace(s[k]) then LeadingEnd(s, k + 1) else k
  }

  /** The index where the whitespace run ending at `k` starts, going no lower than `lo`. */
  function TrailingStart(s: string, lo: nat, k: nat): (j: nat)
    requires lo <= k <= |s|
    ensures lo <= j <= k
    ensures forall m :: j <= m < k ==> IsWhitespace(s[m])
    ensures j == lo || !IsWhitespace(s[j - 1])
    decreases k
  {
    if k > lo && IsWhitespace(s[k - 1]) then TrailingStart(s, lo, k - 1) else k
  }

  /**
   * `s.trim()`: the slice of `s` left once its leading and its trailing
   * whitespace are removed. Only whitespace goes, the slice neither starts
   * nor ends with whitespace, and a string without whitespace is left as
   * it is.
   */
  function Trim(s: string): (r: string)
    ensures var i := LeadingEnd(s, 0);
            i + |r| <= |s| && r == s[i..i + |r|] &&
            (forall k :: 0 <= k < i ==> IsWhitespace(s[k])) &&
            (forall k :: i + |r| <= k < |s| ==> IsWhitespace(s[k]))
    ensures Occurs(s, r)
    ensures r == [] || (!IsWhitespace(r[0]) && !IsWhitespace(r[|r| - 1]))
    ensures (forall i :: 0 <= i < |s| ==> !IsWhitespace(s[i])) ==> r == s
  {
    var i := LeadingEnd(s, 0);
    var j := TrailingStart(s, i, |s|);
    assert 0 <= i <= |s| - (j - i) && MatchAt(s, s[i..j], i);
    s[i..j]
  }

  /** Every character of a string found inside `s` is a character of `s`. */
  lemma OccursChars(s: string, p: string)
    requires Occurs(s, p)
    ensures forall c :: c in p ==> c in s
  {
    var i :| 0 <= i <= |s| - |p| && MatchAt(s, p, i);
    forall c | c in p
      ensures c in s
    {
      var k :| 0 <= k < |p| && p[k] == c;
      assert s[i + k] == c;
    }
  }

  /** Trimming twice removes nothing more. */
  lemma TrimIdempotent(s: string)
    ensures Trim(Trim(s)) == Trim(s)
  {
    var r := Trim(s);
    if r != [] {
      assert LeadingEnd(r, 0) == 0;
      assert TrailingStart(r, 0, |r|) == |r|;
      assert r[0..|r|] == r;
    }
  }

  /** A leading segment free of the separator stays one piece with whatever follows it up to the next separator. */
  lemma {:induction false} SplitPrefix(p: string, t: string, sep: char)
    requires sep !in p
    ensures Split(p + t, sep) == [p + Split(t, sep)[0]] + Split(t, sep)[1..]
    decreases |p|
  {
    if p == [] {
      var st := Split(t, sep);
      assert p + t == t;
      assert p + st[0] == st[0];
      assert st == [st[0]] + st[1..];
    } else {
      var p', st := p[1..], Split(t, sep);
      SplitPrefix(p', t, sep);
      var rest := Split(p' + t, sep);
      assert rest == [p' + st[0]] + st[1..];
      assert (p + t)[0] == p[0] != sep;
      assert (p + t)[1..] == p' + t;
      assert Split(p + t, sep) == [[p[0]] + rest[0]] + rest[1..];
      assert [p[0]] + (p' + st[0]) == p + st[0];
    }
  }

  /** Splitting undoes joining, when no part contains the separator. */
  lemma {:induction false} SplitJoin(parts: seq<string>, sep: char)
    requires |parts| > 0
    requires forall i :: 0 <= i < |parts| ==> sep !in parts[i]
    ensures Split(Join(parts, [sep]), sep) == parts
    decreases |parts|
  {
    var p := parts[0];
    if |parts| == 1 {
      SplitPrefix(p, "", sep);
      assert p + "" == p;
    } else {
      var rest := Join(parts[1..], [sep]);
      SplitJoin(parts[1..], sep);
      assert Join(parts, [sep]) == p + ([sep] + rest);
      SplitPrefix(p, [sep] + rest, sep);
      assert ([sep] + rest)[0] == sep;
      assert ([sep] + rest)[1..] == rest;
      assert Split([sep] + rest, sep) == [""] + parts[1..];
      assert Split(Join(parts, [sep]), sep) == [p + ""] + parts[1..];
      assert p + "" == p;
      assert parts == [p] + parts[1..];
    }
  }
}
