/** ASCII string operations standing in for the JavaScript string methods
    the tool uses: toLowerCase, trim, split/join, `replace` with the regular
    expressions `/\s+/g` and an escaped literal with the flags `gi`,
    substring, lastIndexOf and number-to-string conversion. Unicode case
    folding and Unicode white space are not modelled: letters are folded in
    ASCII only and white space is the six ASCII white-space characters. */
module Text {

  /** The characters JavaScript's `\s` and `trim` treat as white space,
      restricted to ASCII: space, tab, line feed, vertical tab, form feed and
      carriage return. */
  predicate IsSpace(c: char) {
    c == ' ' || c == '\t' || c == '\n' || c == '\r' || c as int == 11 || c as int == 12
  }

  predicate IsDigit(c: char) { '0' <= c <= '9' }

  predicate IsAsciiLetter(c: char) { 'a' <= c <= 'z' || 'A' <= c <= 'Z' }

  predicate IsAsciiAlnum(c: char) { IsAsciiLetter(c) || IsDigit(c) }

  function LowerChar(c: char): (r: char)
    ensures 'A' <= c <= 'Z' ==> 'a' <= r <= 'z'
    ensures !('A' <= c <= 'Z') ==> r == c
  {
    if 'A' <= c <= 'Z' then (c as int + 32) as char else c
  }

  /** `toLowerCase`, ASCII only. */
  function Lower(s: string): (r: string)
    ensures |r| == |s|
    ensures forall i :: 0 <= i < |s| ==> r[i] == LowerChar(s[i])
  {
    if s == [] then [] else [LowerChar(s[0])] + Lower(s[1..])
  }

  lemma {:induction false} LowerIdempotent(s: string)
    ensures Lower(Lower(s)) == Lower(s)
  {
    if s != [] {
      LowerIdempotent(s[1..]);
    }
  }

  lemma {:induction false} LowerAppend(a: string, b: string)
    ensures Lower(a + b) == Lower(a) + Lower(b)
  {
    if a != [] {
      assert (a + b)[1..] == a[1..] + b;
      LowerAppend(a[1..], b);
    } else {
      assert a + b == b;
    }
  }

  predicate StartsWith(s: string, prefix: string) {
    |prefix| <= |s| && s[..|prefix|] == prefix
  }

  /** `includes`: t occurs somewhere in s. */
  predicate Contains(s: string, t: string) {
    exists i :: 0 <= i <= |s| - |t| && StartsWith(s[i..], t)
  }

  predicate EndsWith(s: string, suffix: string) {
    |suffix| <= |s| && s[|s| - |suffix|..] == suffix
  }

  /** `substring(0, n)` for a non-negative n. */
  function Take(s: string, n: nat): (r: string)
    ensures |r| <= n && |r| <= |s|
    ensures r == s[..|r|]
    ensures |s| <= n ==> r == s
    ensures |s| > n ==> |r| == n
  {
    if |s| <= n then s else s[..n]
  }

  /** `lastIndexOf` for a single character: -1 when the character is absent. */
  function LastIndexOf(s: string, c: char): (r: int)
    ensures -1 <= r < |s|
    ensures r >= 0 ==> s[r] == c
    ensures forall j :: r < j < |s| ==> s[j] != c
  {
    if s == [] then -1
    else if s[|s| - 1] == c then |s| - 1
    else LastIndexOf(s[..|s| - 1], c)
  }

  // ---------------------------------------------------------------------
  // trim

  function TrimStart(s: string): (r: string)
    ensures |r| <= |s| && r == s[|s| - |r|..]
    ensures r != [] ==> !IsSpace(r[0])
    ensures forall i :: 0 <= i < |s| - |r| ==> IsSpace(s[i])
    decreases |s|
  {
    if s != [] && IsSpace(s[0]) then TrimStart(s[1..]) else s
  }

  function TrimEnd(s: string): (r: string)
    ensures |r| <= |s| && r == s[..|r|]
    ensures r != [] ==> !IsSpace(r[|r| - 1])
    ensures forall i :: |r| <= i < |s| ==> IsSpace(s[i])
    decreases |s|
  {
    if s != [] && IsSpace(s[|s| - 1]) then TrimEnd(s[..|s| - 1]) else s
  }

  /** `trim`: neither end of the result is white space. */
  function Trim(s: string): (r: string)
    ensures |r| <= |s|
    ensures r != [] ==> !IsSpace(r[0]) && !IsSpace(r[|r| - 1])
  {
    var t := TrimStart(s);
    var r := TrimEnd(t);
    assert r != [] ==> r[0] == t[0];
    r
  }

  /** Number of characters `trim` cuts off the front. */
  function TrimOffset(s: string): nat { |s| - |TrimStart(s)| }

  /** The trim of s is a slice of s, and everything cut off on either side
      is white space. */
  lemma TrimSlice(s: string)
    ensures TrimOffset(s) + |Trim(s)| <= |s|
    ensures Trim(s) == s[TrimOffset(s)..TrimOffset(s) + |Trim(s)|]
    ensures forall i :: 0 <= i < TrimOffset(s) ==> IsSpace(s[i])
    ensures forall i :: TrimOffset(s) + |Trim(s)| <= i < |s| ==> IsSpace(s[i])
  {
    var t := TrimStart(s);
    var a := |s| - |t|;
    SuffixPrefix(s, a, TrimEnd(t));
    TrailingSpaces(s, a, t);
  }

  /** A prefix of the suffix from a is the slice starting at a. */
  lemma SuffixPrefix(s: string, a: nat, r: string)
    requires a <= |s| && |r| <= |s| - a && r == s[a..][..|r|]
    ensures r == s[a..a + |r|]
  {
  }

  /** What `trimEnd` cuts off a suffix is white space of the whole. */
  lemma TrailingSpaces(s: string, a: nat, t: string)
    requires a <= |s| && t == s[a..]
    ensures forall i :: a + |TrimEnd(t)| <= i < |s| ==> IsSpace(s[i])
  {
    forall i | a + |TrimEnd(t)| <= i < |s| ensures IsSpace(s[i]) {
      assert s[i] == t[i - a];
    }
  }

  /** Trimming only removes characters. */
  lemma TrimKeeps(s: string)
    ensures forall c :: c in Trim(s) ==> c in s
  {
    TrimSlice(s);
    SliceKeeps(s, TrimOffset(s), TrimOffset(s) + |Trim(s)|);
  }

  lemma SliceKeeps(s: string, a: nat, b: nat)
    requires a <= b <= |s|
    ensures forall c :: c in s[a..b] ==> c in s
  {
    forall c | c in s[a..b] ensures c in s {
      var i :| 0 <= i < b - a && s[a..b][i] == c;
      assert s[a + i] == c;
    }
  }

  predicate NoBoundarySpace(s: string) {
    s != [] ==> !IsSpace(s[0]) && !IsSpace(s[|s| - 1])
  }

  lemma TrimStartNoSpace(s: string)
    requires s == [] || !IsSpace(s[0])
    ensures TrimStart(s) == s
  {
  }

  lemma TrimEndNoSpace(s: string)
    requires s == [] || !IsSpace(s[|s| - 1])
    ensures TrimEnd(s) == s
  {
  }

  /** A string without white space at either end is its own trim; in
      particular trimming twice is trimming once. */
  lemma TrimFixed(s: string)
    requires NoBoundarySpace(s)
    ensures Trim(s) == s
  {
    TrimStartNoSpace(s);
    TrimEndNoSpace(s);
  }

  lemma TrimIdempotent(s: string)
    ensures Trim(Trim(s)) == Trim(s)
  {
    TrimFixed(Trim(s));
  }

  // ---------------------------------------------------------------------
  // replace(/\s+/g, c)

  /** Every character of r is c or a non-space character of s. */
  predicate CharsFrom(r: string, s: string, c: char) {
    forall i :: 0 <= i < |r| ==> r[i] == c || (!IsSpace(r[i]) && r[i] in s)
  }

  /** No two white-space characters are adjacent in r. */
  predicate NoSpaceRun(r: string) {
    forall i :: 0 <= i < |r| - 1 ==> !(IsSpace(r[i]) && IsSpace(r[i + 1]))
  }

  lemma CharsFromSuffix(r: string, s: string, k: nat, c: char)
    requires k <= |s| && CharsFrom(r, s[k..], c)
    ensures CharsFrom(r, s, c)
  {
    forall i | 0 <= i < |r| && r[i] != c ensures r[i] in s {
      var j :| 0 <= j < |s[k..]| && s[k..][j] == r[i];
      assert s[k + j] == r[i];
    }
  }

  lemma CharsFromCons(x: char, tail: string, s: string, c: char)
    requires s != [] && (x == c || (x == s[0] && !IsSpace(x)))
    requires CharsFrom(tail, s, c)
    ensures CharsFrom([x] + tail, s, c)
  {
    var r := [x] + tail;
    forall i | 0 <= i < |r| ensures r[i] == c || (!IsSpace(r[i]) && r[i] in s) {
      if i > 0 { assert r[i] == tail[i - 1]; }
    }
  }

  lemma NoSpaceRunCons(x: char, tail: string)
    ensures NoSpaceRun(tail) && (tail != [] && IsSpace(x) ==> !IsSpace(tail[0])) ==> NoSpaceRun([x] + tail)
  {
    var r := [x] + tail;
    if NoSpaceRun(tail) && (tail != [] && IsSpace(x) ==> !IsSpace(tail[0])) {
      forall i | 0 <= i < |r| - 1 ensures !(IsSpace(r[i]) && IsSpace(r[i + 1])) {
        if i > 0 { assert r[i] == tail[i - 1] && r[i + 1] == tail[i]; }
      }
    }
  }

  /** Every maximal run of white space replaced by the single character c. */
  function CollapseSpaces(s: string, c: char): (r: string)
    ensures |r| <= |s|
    ensures (r == []) == (s == [])
    ensures s != [] && !IsSpace(s[0]) ==> r[0] == s[0]
    ensures CharsFrom(r, s, c)
    ensures IsSpace(c) ==> NoSpaceRun(r)
    decreases |s|
  {
    if s == [] then []
    else if IsSpace(s[0]) then
      var rest := TrimStart(s[1..]);
      var tail := CollapseSpaces(rest, c);
      CharsFromSuffix(tail, s, |s| - |rest|, c);
      CharsFromCons(c, tail, s, c);
      NoSpaceRunCons(c, tail);
      [c] + tail
    else
      var tail := CollapseSpaces(s[1..], c);
      CharsFromSuffix(tail, s, 1, c);
      CharsFromCons(s[0], tail, s, c);
      NoSpaceRunCons(s[0], tail);
      [s[0]] + tail
  }

  /** A string without white space is left as it is. */
  lemma {:induction false} CollapseNoSpace(s: string, c: char)
    requires forall i :: 0 <= i < |s| ==> !IsSpace(s[i])
    ensures CollapseSpaces(s, c) == s
    decreases |s|
  {
    if s != [] {
      CollapseNoSpace(s[1..], c);
    }
  }

  /** Every white-space character of r is a blank. */
  predicate SpacesAreBlank(r: string) {
    forall i :: 0 <= i < |r| ==> !IsSpace(r[i]) || r[i] == ' '
  }

  /** No two blanks are adjacent in r. */
  predicate NoDoubleBlank(r: string) {
    forall i :: 0 <= i < |r| - 1 ==> !(r[i] == ' ' && r[i + 1] == ' ')
  }

  lemma CollapsedBlank(s: string)
    ensures SpacesAreBlank(CollapseSpaces(s, ' ')) && NoDoubleBlank(CollapseSpaces(s, ' '))
  {
    var c := CollapseSpaces(s, ' ');
    assert CharsFrom(c, s, ' ');
    assert NoSpaceRun(c);
  }

  /** A slice keeps both properties. */
  lemma SliceBlank(c: string, a: nat, n: nat)
    requires a + n <= |c|
    requires SpacesAreBlank(c) && NoDoubleBlank(c)
    ensures SpacesAreBlank(c[a..a + n]) && NoDoubleBlank(c[a..a + n])
  {
    var r := c[a..a + n];
    forall i | 0 <= i < |r| ensures !IsSpace(r[i]) || r[i] == ' ' {
      assert r[i] == c[a + i];
    }
    forall i | 0 <= i < |r| - 1 ensures !(r[i] == ' ' && r[i + 1] == ' ') {
      assert r[i] == c[a + i] && r[i + 1] == c[a + i + 1];
    }
  }

  lemma TrimBlank(c: string)
    requires SpacesAreBlank(c) && NoDoubleBlank(c)
    ensures SpacesAreBlank(Trim(c)) && NoDoubleBlank(Trim(c)) && NoBoundarySpace(Trim(c))
  {
    TrimSlice(c);
    SliceBlank(c, TrimOffset(c), |Trim(c)|);
  }

  /** `replace(/\s+/g, ' ').trim()`: the title clean-up of the bulk editor. */
  function NormalizeSpaces(s: string): (r: string)
    ensures |r| <= |s|
    ensures NoBoundarySpace(r)
    ensures SpacesAreBlank(r)
    ensures NoDoubleBlank(r)
  {
    CollapsedBlank(s);
    TrimBlank(CollapseSpaces(s, ' '));
    Trim(CollapseSpaces(s, ' '))
  }

  // ---------------------------------------------------------------------
  // Case-insensitive literal replacement: `replace(new RegExp(escaped, 'gi'), rep)`

  /** pat occurs at position i of s, ignoring ASCII case. */
  predicate MatchAt(s: string, pat: string, i: nat) {
    i + |pat| <= |s| && Lower(s[i..i + |pat|]) == Lower(pat)
  }

  /** Every non-overlapping occurrence of pat, scanning left to right,
      replaced by rep. */
  function ReplaceAllCI(s: string, pat: string, rep: string): (r: string)
    requires pat != []
    ensures (forall i :: 0 <= i <= |s| - |pat| ==> !MatchAt(s, pat, i)) ==> r == s
    decreases |s|
  {
    if |s| < |pat| then s
    else if Lower(s[..|pat|]) == Lower(pat) then
      assert MatchAt(s, pat, 0);
      rep + ReplaceAllCI(s[|pat|..], pat, rep)
    else
      var tail := ReplaceAllCI(s[1..], pat, rep);
      assert (forall i :: 0 <= i <= |s| - |pat| ==> !MatchAt(s, pat, i)) ==>
             (forall i :: 0 <= i <= |s[1..]| - |pat| ==> !MatchAt(s[1..], pat, i)) by {
        forall i | 0 <= i <= |s[1..]| - |pat| && MatchAt(s[1..], pat, i)
          ensures MatchAt(s, pat, i + 1)
        {
          assert s[1..][i..i + |pat|] == s[i + 1..i + 1 + |pat|];
        }
      }
      [s[0]] + tail
  }

  /** With an empty replacement, the result is what is left of s after
      cutting the matches out: a subsequence of s. */
  lemma {:induction false} RemoveAllIsSubsequence(s: string, pat: string)
    requires pat != []
    ensures IsSubsequence(ReplaceAllCI(s, pat, []), s)
    decreases |s|
  {
    if |s| < |pat| {
      SubsequenceRefl(s);
    } else if Lower(s[..|pat|]) == Lower(pat) {
      RemoveAllIsSubsequence(s[|pat|..], pat);
      assert ReplaceAllCI(s, pat, []) == ReplaceAllCI(s[|pat|..], pat, []);
      SubsequenceDrop(ReplaceAllCI(s[|pat|..], pat, []), s, |pat|);
    } else {
      RemoveAllIsSubsequence(s[1..], pat);
    }
  }

  // ---------------------------------------------------------------------
  // Subsequences

  /** a can be obtained from b by deleting elements. */
  predicate IsSubsequence<T(==)>(a: seq<T>, b: seq<T>)
    decreases |b|
  {
    a == [] || (b != [] && ((a[0] == b[0] && IsSubsequence(a[1..], b[1..])) || IsSubsequence(a, b[1..])))
  }

  lemma {:induction false} SubsequenceRefl<T>(s: seq<T>)
    ensures IsSubsequence(s, s)
    decreases |s|
  {
    if s != [] {
      SubsequenceRefl(s[1..]);
    }
  }

  lemma {:induction false} SubsequenceDrop<T>(a: seq<T>, b: seq<T>, k: nat)
    requires k <= |b|
    requires IsSubsequence(a, b[k..])
    ensures IsSubsequence(a, b)
    decreases k
  {
    if k > 0 {
      assert b[k..] == b[1..][k - 1..];
      SubsequenceDrop(a, b[1..], k - 1);
    }
  }

  lemma {:induction false} SubsequencePrefix<T>(s: seq<T>, n: nat)
    requires n <= |s|
    ensures IsSubsequence(s[..n], s)
    decreases |s|
  {
    if n > 0 {
      assert s[..n][1..] == s[1..][..n - 1];
      SubsequencePrefix(s[1..], n - 1);
    }
  }

  /** A prefix of a subsequence is a subsequence. */
  lemma PrefixOfSubsequence<T>(a: seq<T>, n: nat, c: seq<T>)
    requires n <= |a| && IsSubsequence(a, c)
    ensures IsSubsequence(a[..n], c)
  {
    SubsequencePrefix(a, n);
    SubsequenceTrans(a[..n], a, c);
  }

  /** Subsequences concatenate. */
  lemma {:induction false} SubsequenceConcat<T>(a: seq<T>, b: seq<T>, c: seq<T>, d: seq<T>)
    requires IsSubsequence(a, b) && IsSubsequence(c, d)
    ensures IsSubsequence(a + c, b + d)
    decreases |b|
  {
    if a == [] {
      assert a + c == c;
      assert (b + d)[|b|..] == d;
      SubsequenceDrop(c, b + d, |b|);
    } else {
      assert (a + c)[1..] == a[1..] + c;
      assert (b + d)[1..] == b[1..] + d;
      if a[0] == b[0] && IsSubsequence(a[1..], b[1..]) {
        SubsequenceConcat(a[1..], b[1..], c, d);
      } else {
        SubsequenceConcat(a, b[1..], c, d);
      }
    }
  }

  lemma {:induction false} SubsequenceTrans<T>(a: seq<T>, b: seq<T>, c: seq<T>)
    requires IsSubsequence(a, b) && IsSubsequence(b, c)
    ensures IsSubsequence(a, c)
    decreases |c|
  {
    if a != [] {
      if b[0] == c[0] && IsSubsequence(b[1..], c[1..]) {
        if a[0] == b[0] && IsSubsequence(a[1..], b[1..]) {
          SubsequenceTrans(a[1..], b[1..], c[1..]);
        } else {
          SubsequenceTrans(a, b[1..], c[1..]);
        }
      } else {
        SubsequenceTrans(a, b, c[1..]);
      }
    }
  }

  /** `filter`: the elements satisfying P, in their original order. */
  function Filter<T(!new)>(s: seq<T>, P: T -> bool): (r: seq<T>)
    ensures |r| <= |s|
    ensures forall x :: x in r <==> x in s && P(x)
    decreases |s|
  {
    if s == [] then []
    else
      var tail := Filter(s[1..], P);
      assert forall x :: x in s <==> x == s[0] || x in s[1..];
      if P(s[0]) then [s[0]] + tail else tail
  }

  /** What every candidate that passes the filter satisfies, every kept
      element satisfies. */
  lemma FilterKeeps<T(!new)>(s: seq<T>, P: T -> bool, Q: T -> bool)
    requires forall i :: 0 <= i < |s| && P(s[i]) ==> Q(s[i])
    ensures forall i :: 0 <= i < |Filter(s, P)| ==> Q(Filter(s, P)[i])
  {
    var r := Filter(s, P);
    forall i | 0 <= i < |r| ensures Q(r[i]) {
      assert r[i] in r;
      var j :| 0 <= j < |s| && s[j] == r[i];
    }
  }

  lemma {:induction false} FilterIsSubsequence<T(!new)>(s: seq<T>, P: T -> bool)
    ensures IsSubsequence(Filter(s, P), s)
    decreases |s|
  {
    if s != [] {
      FilterIsSubsequence(s[1..], P);
    }
  }

  lemma {:induction false} FilterAppend<T(!new)>(a: seq<T>, b: seq<T>, P: T -> bool)
    ensures Filter(a + b, P) == Filter(a, P) + Filter(b, P)
    decreases |a|
  {
    if a == [] {
      assert a + b == b;
    } else {
      assert (a + b)[1..] == a[1..] + b;
      FilterAppend(a[1..], b, P);
    }
  }

  /** Filtering keeps everything exactly when every element passes. */
  lemma {:induction false} FilterAll<T(!new)>(s: seq<T>, P: T -> bool)
    requires forall i :: 0 <= i < |s| ==> P(s[i])
    ensures Filter(s, P) == s
    decreases |s|
  {
    if s != [] {
      FilterAll(s[1..], P);
    }
  }

  lemma {:induction false} FilterNone<T(!new)>(s: seq<T>, P: T -> bool)
    requires forall i :: 0 <= i < |s| ==> !P(s[i])
    ensures Filter(s, P) == []
    decreases |s|
  {
    if s != [] {
      FilterNone(s[1..], P);
    }
  }

  /** Filter keeps every copy of a kept value and no copy of a dropped one. */
  lemma {:induction false} FilterCount<T(!new)>(s: seq<T>, P: T -> bool)
    ensures forall x :: multiset(Filter(s, P))[x] == if P(x) then multiset(s)[x] else 0
    decreases |s|
  {
    if s != [] {
      FilterCount(s[1..], P);
      assert s == [s[0]] + s[1..];
    }
  }

  /** The positions of s whose element satisfies P. */
  function IndicesWhere<T>(s: seq<T>, P: T -> bool): set<nat> {
    set i: nat | i < |s| && P(s[i])
  }

  /** Filter keeps one element per position that satisfies P. */
  lemma {:induction false} FilterLength<T(!new)>(s: seq<T>, P: T -> bool)
    ensures |Filter(s, P)| == |IndicesWhere(s, P)|
    decreases |s|
  {
    if s != [] {
      var n := |s| - 1;
      var init := s[..n];
      FilterLength(init, P);
      assert s == init + [s[n]];
      FilterAppend(init, [s[n]], P);
      assert Filter([s[n]], P) == if P(s[n]) then [s[n]] else [];
      IndicesSnoc(init, s[n], P);
    }
  }

  lemma IndicesSnoc<T>(init: seq<T>, x: T, P: T -> bool)
    ensures IndicesWhere(init + [x], P) == IndicesWhere(init, P) + (if P(x) then {|init|} else {})
    ensures |init| !in IndicesWhere(init, P)
  {
    var s := init + [x];
    assert forall i :: 0 <= i < |init| ==> s[i] == init[i];
  }

  // ---------------------------------------------------------------------
  // split / join

  /** `join(sep)`. */
  function Join(parts: seq<string>, sep: string): string
  {
    if |parts| == 0 then []
    else if |parts| == 1 then parts[0]
    else parts[0] + sep + Join(parts[1..], sep)
  }

  /** `split(c)` for a one-character separator: always at least one part,
      and no part contains the separator. */
  function Split(s: string, c: char): (parts: seq<string>)
    ensures |parts| >= 1
    ensures forall i :: 0 <= i < |parts| ==> c !in parts[i]
    decreases |s|
  {
    if s == [] then [[]]
    else
      var rest := Split(s[1..], c);
      if s[0] == c then [[]] + rest
      else [[s[0]] + rest[0]] + rest[1..]
  }

  /** Joining the parts of a split with the separator gives the input back. */
  lemma {:induction false} JoinSplit(s: string, c: char)
    ensures Join(Split(s, c), [c]) == s
    decreases |s|
  {
    if s != [] {
      JoinSplit(s[1..], c);
      var rest := Split(s[1..], c);
      if s[0] == c {
        assert Split(s, c) == [[]] + rest;
      } else {
        assert Split(s, c) == [[s[0]] + rest[0]] + rest[1..];
        if |rest| > 1 {
          assert Join(rest, [c]) == rest[0] + [c] + Join(rest[1..], [c]);
        }
      }
    }
  }

  lemma {:induction false} SplitNoSeparator(x: string, c: char)
    requires c !in x
    ensures Split(x, c) == [x]
    decreases |x|
  {
    if x != [] {
      SplitNoSeparator(x[1..], c);
      assert [x[0]] + x[1..] == x;
    }
  }

  lemma {:induction false} SplitAfterPart(x: string, c: char, y: string)
    requires c !in x
    ensures Split(x + [c] + y, c) == [x] + Split(y, c)
    decreases |x|
  {
    if x == [] {
      assert x + [c] + y == [c] + y;
      assert ([c] + y)[1..] == y;
    } else {
      assert (x + [c] + y)[1..] == x[1..] + [c] + y;
      SplitAfterPart(x[1..], c, y);
      assert [x[0]] + x[1..] == x;
    }
  }

  /** Splitting at one separator splits each side on its own. */
  lemma {:induction false} SplitAround(x: string, c: char, y: string)
    ensures Split(x + [c] + y, c) == Split(x, c) + Split(y, c)
    decreases |x|
  {
    if x == [] {
      assert x + [c] + y == [c] + y;
      assert ([c] + y)[1..] == y;
    } else {
      assert (x + [c] + y)[1..] == x[1..] + [c] + y;
      SplitAround(x[1..], c, y);
    }
  }

  /** `split(c).pop()`: the last part is the text after the last separator,
      the whole string when it has none. */
  lemma SplitLast(s: string, c: char)
    ensures var parts := Split(s, c); parts[|parts| - 1] == s[LastIndexOf(s, c) + 1..]
  {
    SplitLastAt(s, c, LastIndexOf(s, c));
  }

  lemma SplitLastAt(s: string, c: char, k: int)
    requires -1 <= k < |s| && (k >= 0 ==> s[k] == c)
    requires forall j :: k < j < |s| ==> s[j] != c
    ensures var parts := Split(s, c); parts[|parts| - 1] == s[k + 1..]
  {
    var y := s[k + 1..];
    assert forall j :: 0 <= j < |y| ==> y[j] == s[k + 1 + j];
    SplitNoSeparator(y, c);
    if k >= 0 {
      var x := s[..k];
      assert s == x + [c] + y;
      SplitAround(x, c, y);
    } else {
      assert s == y;
    }
  }

  /** Splitting what was joined recovers the parts, when no part contains
      the separator. */
  lemma {:induction false} SplitJoin(parts: seq<string>, c: char)
    requires |parts| >= 1
    requires forall i :: 0 <= i < |parts| ==> c !in parts[i]
    ensures Split(Join(parts, [c]), c) == parts
    decreases |parts|
  {
    if |parts| == 1 {
      SplitNoSeparator(parts[0], c);
    } else {
      SplitJoin(parts[1..], c);
      SplitAfterPart(parts[0], c, Join(parts[1..], [c]));
      assert [parts[0]] + parts[1..] == parts;
    }
  }

  // ---------------------------------------------------------------------
  // Decimal numerals: the `${counter}` of a template string

  function DigitChar(d: nat): (c: char)
    requires d < 10
    ensures IsDigit(c)
  {
    ('0' as int + d) as char
  }

  predicate AllDigits(s: string) {
    forall i :: 0 <= i < |s| ==> IsDigit(s[i])
  }

  function NatToString(n: nat): (s: string)
    ensures |s| >= 1 && AllDigits(s)
    decreases n
  {
    if n < 10 then [DigitChar(n)] else NatToString(n / 10) + [DigitChar(n % 10)]
  }

  function ParseNat(s: string): nat
    requires AllDigits(s)
  {
    if s == [] then 0 else 10 * ParseNat(s[..|s| - 1]) + (s[|s| - 1] as int - '0' as int)
  }

  /** Reading back a numeral gives the number: the numerals of distinct
      numbers differ. */
  lemma {:induction false} ParseNatToString(n: nat)
    ensures ParseNat(NatToString(n)) == n
    decreases n
  {
    if n >= 10 {
      ParseNatToString(n / 10);
      var s := NatToString(n);
      assert s[..|s| - 1] == NatToString(n / 10);
    }
  }

  lemma NatToStringInjective(a: nat, b: nat)
    ensures NatToString(a) == NatToString(b) ==> a == b
  {
    ParseNatToString(a);
    ParseNatToString(b);
  }
}
