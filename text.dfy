/** String primitives that the application takes from JavaScript: `trim()`,
    `toLowerCase()`, `split`, `includes`, `parseInt` and the handful of regular
    expressions it applies (`\s+`, `\D`, `^sample\s*-\s*`, `(\d+(\.\d+)?)`,
    whole-word `\b...\b`). Each is written out over `seq<char>`. */
module Text {

  datatype Option<+T> = None | Some(value: T)

  // ---------------------------------------------------------------------
  // Character classes
  // ---------------------------------------------------------------------

  /** The characters JavaScript's `\s` matches and `trim()` removes:
      WhiteSpace (including U+FEFF and the Unicode space separators) and
      LineTerminator. */
  predicate IsSpace(c: char) {
    c == ' ' || c == '\t' || c == '\n' || c == '\r' || c == '\U{000B}' || c == '\U{000C}'
    || c == '\U{00A0}' || c == '\U{1680}' || ('\U{2000}' <= c <= '\U{200A}')
    || c == '\U{2028}' || c == '\U{2029}' || c == '\U{202F}' || c == '\U{205F}'
    || c == '\U{3000}' || c == '\U{FEFF}'
  }

  /** `\d` */
  predicate IsDigit(c: char) { '0' <= c <= '9' }

  /** `\w`, the class `\b` is defined by (no `u` flag). */
  predicate IsWordChar(c: char) {
    ('a' <= c <= 'z') || ('A' <= c <= 'Z') || IsDigit(c) || c == '_'
  }

  predicate AllDigits(s: string) { forall i :: 0 <= i < |s| ==> IsDigit(s[i]) }

  predicate HasDigit(s: string) { exists i :: 0 <= i < |s| && IsDigit(s[i]) }

  /** `sub` occurs in `s` starting at position i. */
  predicate SliceAt(s: string, i: int, sub: string) {
    0 <= i <= |s| - |sub| && s[i..i + |sub|] == sub
  }

  // ---------------------------------------------------------------------
  // Case
  // ---------------------------------------------------------------------

  /** `toLowerCase()` of one character: 'A'..'Z' become 'a'..'z', and every
      other character is kept. */
  function LowerChar(c: char): (r: char)
    ensures 'A' <= c <= 'Z' ==> r as int == c as int + 32 && 'a' <= r <= 'z'
    ensures !('A' <= c <= 'Z') ==> r == c
    ensures IsSpace(r) <==> IsSpace(c)
    ensures !('A' <= r <= 'Z')
  {
    if 'A' <= c <= 'Z' then (c as int + 32) as char else c
  }

  /** `toLowerCase()`, restricted to ASCII letters. */
  function Lower(s: string): (r: string)
    ensures |r| == |s|
    ensures forall i :: 0 <= i < |s| ==> r[i] == LowerChar(s[i])
  {
    seq(|s|, i requires 0 <= i < |s| => LowerChar(s[i]))
  }

  /** `t` is the lower-case text `u` with any of its letters written in
      capitals. */
  predicate CaseVariant(t: string, u: string) {
    |t| == |u| && forall i :: 0 <= i < |t| ==>
      !('A' <= u[i] <= 'Z') && (t[i] == u[i] || ('A' <= t[i] <= 'Z' && u[i] as int == t[i] as int + 32))
  }

  /** Lower-casing undoes any capitals. */
  lemma LowerOfCaseVariant(t: string, u: string)
    requires CaseVariant(t, u)
    ensures Lower(t) == u
  {
    forall i | 0 <= i < |t| ensures Lower(t)[i] == u[i] {
      assert Lower(t)[i] == LowerChar(t[i]);
    }
  }

  lemma LowerIdempotent(s: string)
    ensures Lower(Lower(s)) == Lower(s)
  {
  }

  // ---------------------------------------------------------------------
  // trim()
  // ---------------------------------------------------------------------

  /** Drops the leading run of whitespace. */
  function TrimStart(s: string): (r: string)
    ensures |r| <= |s| && r == s[|s| - |r|..]
    ensures r == [] || !IsSpace(r[0])
    ensures forall i :: 0 <= i < |s| - |r| ==> IsSpace(s[i])
  {
    if s != [] && IsSpace(s[0]) then TrimStart(s[1..]) else s
  }

  /** The index of the first non-whitespace character at or after `i`, or
      `|s|` when there is none. */
  function SpaceRunEnd(s: string, i: nat): (j: nat)
    requires i <= |s|
    ensures i <= j <= |s|
    ensures j < |s| ==> !IsSpace(s[j])
    ensures forall k :: i <= k < j ==> IsSpace(s[k])
    decreases |s| - i
  {
    if i < |s| && IsSpace(s[i]) then SpaceRunEnd(s, i + 1) else i
  }

  /** The index where the whitespace run ending just before `j` begins. */
  function SpaceRunStart(s: string, j: nat): (i: nat)
    requires j <= |s|
    ensures i <= j
    ensures i > 0 ==> !IsSpace(s[i - 1])
    ensures forall k :: i <= k < j ==> IsSpace(s[k])
  {
    if j > 0 && IsSpace(s[j - 1]) then SpaceRunStart(s, j - 1) else j
  }

  /** `trim()`: the slice of `s` between its leading and its trailing runs of
      whitespace; it neither starts nor ends with whitespace. */
  function Trim(s: string): (r: string)
    ensures |r| <= |s|
    ensures r == [] || (!IsSpace(r[0]) && !IsSpace(r[|r| - 1]))
  {
    var a := SpaceRunEnd(s, 0);
    if a == |s| then []
    else
      var b := SpaceRunStart(s, |s|);
      assert !IsSpace(s[a]);
      s[a..b]
  }

  /** The trimmed text is a slice `s[i..i + |Trim(s)|]`. */
  lemma TrimIsSlice(s: string)
    ensures exists i :: SliceAt(s, i, Trim(s))
  {
    var a := SpaceRunEnd(s, 0);
    if a == |s| {
      assert SliceAt(s, 0, Trim(s));
    } else {
      assert SliceAt(s, a, Trim(s));
    }
  }

  lemma {:induction false} TrimOfTrimmed(s: string)
    requires s == [] || (!IsSpace(s[0]) && !IsSpace(s[|s| - 1]))
    ensures Trim(s) == s
  {
    if s != [] {
      assert SpaceRunEnd(s, 0) == 0;
      assert SpaceRunStart(s, |s|) == |s|;
      assert s[0..|s|] == s;
    }
  }

  /** `trim()` is idempotent. */
  lemma TrimIdempotent(s: string)
    ensures Trim(Trim(s)) == Trim(s)
  {
    TrimOfTrimmed(Trim(s));
  }

  /** A string that is empty or consists only of whitespace trims to "". */
  lemma {:induction false} TrimEmptyIffBlank(s: string)
    ensures Trim(s) == [] <==> forall i :: 0 <= i < |s| ==> IsSpace(s[i])
  {
    var a := SpaceRunEnd(s, 0);
    if a < |s| {
      assert !IsSpace(s[a]);
      assert Trim(s)[0] == s[a];
    }
  }

  // ---------------------------------------------------------------------
  // Whitespace collapse: replace(/\s+/g, ' ')
  // ---------------------------------------------------------------------

  /** No two adjacent whitespace characters. */
  predicate NoDoubleSpace(s: string) {
    forall i :: 0 <= i < |s| - 1 ==> !(IsSpace(s[i]) && IsSpace(s[i + 1]))
  }

  /** Trimmed at both ends and with no run of two whitespace characters. */
  predicate WellSpaced(s: string) {
    (s == [] || (!IsSpace(s[0]) && !IsSpace(s[|s| - 1]))) && NoDoubleSpace(s)
  }

  /** The characters of `s` that are not whitespace, in order. */
  function NonSpace(s: string): (r: string)
    ensures forall i :: 0 <= i < |r| ==> !IsSpace(r[i])
  {
    if s == [] then [] else (if IsSpace(s[0]) then [] else [s[0]]) + NonSpace(s[1..])
  }

  lemma {:induction false} NonSpaceAppend(a: string, b: string)
    ensures NonSpace(a + b) == NonSpace(a) + NonSpace(b)
  {
    if a != [] {
      NonSpaceAppend(a[1..], b);
      assert (a + b)[1..] == a[1..] + b;
    } else {
      assert a + b == b;
    }
  }

  lemma {:induction false} NonSpaceOfBlank(s: string)
    requires forall i :: 0 <= i < |s| ==> IsSpace(s[i])
    ensures NonSpace(s) == []
  {
    if s != [] {
      NonSpaceOfBlank(s[1..]);
    }
  }

  /** Trimming removes whitespace only. */
  lemma TrimKeepsText(s: string)
    ensures NonSpace(Trim(s)) == NonSpace(s)
  {
    if SpaceRunEnd(s, 0) == |s| {
      NonSpaceOfBlank(s);
    } else {
      TrimKeepsTextInner(s);
    }
  }

  /** `TrimKeepsText` for a string that is not all whitespace. */
  lemma TrimKeepsTextInner(s: string)
    requires SpaceRunEnd(s, 0) < |s|
    ensures NonSpace(Trim(s)) == NonSpace(s)
  {
    var a := SpaceRunEnd(s, 0);
    var b := SpaceRunStart(s, |s|);
    assert !IsSpace(s[a]);
    SplitThree(s, a, b);
    var p, m, q := s[..a], s[a..b], s[b..];
    NonSpaceOfBlankPrefix(s, a);
    NonSpaceOfBlankSuffix(s, b);
    NonSpaceAppend(p + m, q);
    NonSpaceAppend(p, m);
    SkipBlankEnds(NonSpace(s), NonSpace(p), NonSpace(m), NonSpace(q), NonSpace(p + m));
  }

  /** A prefix holding whitespace only keeps nothing. */
  lemma NonSpaceOfBlankPrefix(s: string, a: nat)
    requires a <= |s| && forall k :: 0 <= k < a ==> IsSpace(s[k])
    ensures NonSpace(s[..a]) == []
  {
    var w := s[..a];
    assert forall k :: 0 <= k < |w| ==> w[k] == s[k];
    NonSpaceOfBlank(w);
  }

  /** A suffix holding whitespace only keeps nothing. */
  lemma NonSpaceOfBlankSuffix(s: string, b: nat)
    requires b <= |s| && forall k :: b <= k < |s| ==> IsSpace(s[k])
    ensures NonSpace(s[b..]) == []
  {
    var w := s[b..];
    assert forall k :: 0 <= k < |w| ==> w[k] == s[b + k];
    NonSpaceOfBlank(w);
  }

  /** Sequence algebra for `TrimKeepsText`, kept apart from `NonSpace`. */
  lemma SkipBlankEnds<T>(all: seq<T>, p: seq<T>, m: seq<T>, q: seq<T>, pm: seq<T>)
    requires all == pm + q && pm == p + m && p == [] && q == []
    ensures all == m
  {
  }

  lemma SplitThree(s: string, a: nat, b: nat)
    requires a <= b <= |s|
    ensures s == s[..a] + s[a..b] + s[b..]
  {
  }

  /** Every run of whitespace becomes one ' '. */
  function Collapse(s: string): (r: string)
    ensures |r| <= |s|
    ensures NoDoubleSpace(r)
    ensures forall i :: 0 <= i < |r| && IsSpace(r[i]) ==> r[i] == ' '
    ensures (r == []) == (s == [])
    ensures r != [] ==> (IsSpace(r[0]) <==> IsSpace(s[0]))
    decreases |s|
  {
    if s == [] then []
    else if IsSpace(s[0]) then [' '] + Collapse(TrimStart(s))
    else [s[0]] + Collapse(s[1..])
  }

  lemma {:induction false} NonSpaceOfTrimStart(s: string)
    ensures NonSpace(TrimStart(s)) == NonSpace(s)
  {
    if s != [] && IsSpace(s[0]) {
      NonSpaceOfTrimStart(s[1..]);
    }
  }

  /** Collapsing whitespace keeps every other character, in order. */
  lemma {:induction false} CollapseKeepsText(s: string)
    ensures NonSpace(Collapse(s)) == NonSpace(s)
    decreases |s|
  {
    if s == [] {
    } else if IsSpace(s[0]) {
      var t := TrimStart(s);
      CollapseKeepsText(t);
      NonSpaceOfTrimStart(s);
      assert Collapse(s) == [' '] + Collapse(t);
      assert NonSpace([' '] + Collapse(t)) == NonSpace(Collapse(t)) by {
        assert ([' '] + Collapse(t))[1..] == Collapse(t);
      }
    } else {
      CollapseKeepsText(s[1..]);
      assert ([s[0]] + Collapse(s[1..]))[1..] == Collapse(s[1..]);
    }
  }

  /** Leading whitespace ends inside a string that ends in a non-space. */
  lemma {:induction false} TrimStartAppend(x: string, y: string)
    requires x != [] && !IsSpace(x[|x| - 1])
    ensures TrimStart(x + y) == TrimStart(x) + y
  {
    if IsSpace(x[0]) {
      assert (x + y)[1..] == x[1..] + y;
      TrimStartAppend(x[1..], y);
    }
  }

  /** A whitespace run in front of a non-space is dropped whole. */
  lemma {:induction false} TrimStartRun(w: string, t: string)
    requires forall k :: 0 <= k < |w| ==> IsSpace(w[k])
    requires t == [] || !IsSpace(t[0])
    ensures TrimStart(w + t) == t
  {
    if w == [] {
      assert w + t == t;
    } else {
      assert (w + t)[1..] == w[1..] + t;
      TrimStartRun(w[1..], t);
    }
  }

  /** A string ending in a non-space collapses to one ending in that
      character. */
  lemma {:induction false} CollapseLast(x: string)
    requires x != [] && !IsSpace(x[|x| - 1])
    ensures Collapse(x) != [] && Collapse(x)[|Collapse(x)| - 1] == x[|x| - 1]
    decreases |x|
  {
    if IsSpace(x[0]) {
      var t := TrimStart(x);
      TrimStartNonEmpty(x);
      CollapseLast(t);
      assert Collapse(x) == [' '] + Collapse(t);
    } else if |x| > 1 {
      CollapseLast(x[1..]);
    }
  }

  /** Where the first part ends in a non-space, no whitespace run crosses the
      join, so the parts collapse separately. */
  lemma {:induction false} CollapseAppend(x: string, y: string)
    requires x == [] || !IsSpace(x[|x| - 1])
    ensures Collapse(x + y) == Collapse(x) + Collapse(y)
    decreases |x|, 1
  {
    if x == [] {
      assert x + y == y;
    } else if IsSpace(x[0]) {
      CollapseAppendSpace(x, y);
    } else {
      CollapseAppendWord(x, y);
    }
  }

  /** The case of `CollapseAppend` where `x` starts with a non-space. */
  lemma {:induction false} CollapseAppendWord(x: string, y: string)
    requires x != [] && !IsSpace(x[0]) && !IsSpace(x[|x| - 1])
    ensures Collapse(x + y) == Collapse(x) + Collapse(y)
    decreases |x|, 0
  {
    var t := x[1..];
    assert t == [] || t[|t| - 1] == x[|x| - 1];
    CollapseWordStep(x, y);
    CollapseAppend(t, y);
    Regroup([x[0]], Collapse(t), Collapse(y));
  }

  /** The case of `CollapseAppend` where `x` starts with whitespace. */
  lemma {:induction false} CollapseAppendSpace(x: string, y: string)
    requires x != [] && IsSpace(x[0]) && !IsSpace(x[|x| - 1])
    ensures Collapse(x + y) == Collapse(x) + Collapse(y)
    decreases |x|, 0
  {
    var t := TrimStart(x);
    TrimStartNonEmpty(x);
    TrimStartAppend(x, y);
    CollapseSpaceStep(x, y, t);
    CollapseAppend(t, y);
    Regroup([' '], Collapse(t), Collapse(y));
  }

  /** One unfolding at a leading whitespace run, in `x` and in `x + y`. */
  lemma CollapseSpaceStep(x: string, y: string, t: string)
    requires x != [] && IsSpace(x[0]) && t == TrimStart(x) && TrimStart(x + y) == t + y
    ensures Collapse(x + y) == [' '] + Collapse(t + y) && Collapse(x) == [' '] + Collapse(t)
  {
    assert (x + y)[0] == x[0];
  }

  /** One unfolding at a leading non-space, in `x` and in `x + y`. */
  lemma CollapseWordStep(x: string, y: string)
    requires x != [] && !IsSpace(x[0])
    ensures Collapse(x + y) == [x[0]] + Collapse(x[1..] + y) && Collapse(x) == [x[0]] + Collapse(x[1..])
  {
    assert (x + y)[0] == x[0];
    assert (x + y)[1..] == x[1..] + y;
  }

  /** Dropping the leading whitespace of a string that starts with some and
      ends in a non-space leaves a shorter string with the same last
      character. */
  lemma TrimStartNonEmpty(x: string)
    requires x != [] && IsSpace(x[0]) && !IsSpace(x[|x| - 1])
    ensures var t := TrimStart(x); t != [] && |t| < |x| && !IsSpace(t[|t| - 1])
  {
    var t := TrimStart(x);
    assert t != [] ==> t[|t| - 1] == x[|x| - 1];
  }

  /** A whitespace run becomes exactly one ' '. */
  lemma CollapseRun(w: string, t: string)
    requires w != [] && forall k :: 0 <= k < |w| ==> IsSpace(w[k])
    requires t == [] || !IsSpace(t[0])
    ensures Collapse(w + t) == [' '] + Collapse(t)
  {
    TrimStartRun(w, t);
  }

  /** A whitespace gap before a non-space character collapses to one ' ', or
      to nothing when the gap is empty. */
  lemma CollapseGap(w: string, d: char, q: string)
    requires !IsSpace(d) && forall k :: 0 <= k < |w| ==> IsSpace(w[k])
    ensures Collapse(w + ([d] + q)) == (if w == [] then [] else [' ']) + ([d] + Collapse(q))
  {
    var t := [d] + q;
    assert t[1..] == q;
    if w == [] {
      assert w + t == t;
    } else {
      CollapseRun(w, t);
    }
  }

  /** A string made of `u` and then `v` contains the last character of `u`
      followed by any prefix of `v`. */
  lemma ContainsAcrossJoin(all: string, u: string, v: string, n: string, rest: string, m: string)
    requires all == u + v && u != [] && v == n + rest && m == [u[|u| - 1]] + n
    ensures Contains(all, m)
  {
    assert forall k :: 0 <= k < |m| ==> all[|u| - 1 + k] == m[k];
    assert SliceAt(all, |u| - 1, m);
  }

  lemma Regroup<T>(a: seq<T>, b: seq<T>, c: seq<T>)
    ensures a + (b + c) == a + b + c
  {
  }

  /** Two non-space characters with only whitespace between them end up next
      to each other, or one ' ' apart when the whitespace is not empty. */
  lemma CollapseBetween(p: string, c: char, w: string, d: char, q: string)
    requires !IsSpace(c) && !IsSpace(d) && forall k :: 0 <= k < |w| ==> IsSpace(w[k])
    ensures Collapse(p + [c] + w + [d] + q) == Collapse(p + [c]) + (if w == [] then [] else [' ']) + [d] + Collapse(q)
    ensures Contains(Collapse(p + [c] + w + [d] + q), [c] + (if w == [] then [] else [' ']) + [d])
  {
    var x, y := p + [c], w + ([d] + q);
    var all := p + [c] + w + [d] + q;
    assert all == x + y;
    CollapseAppend(x, y);
    CollapseLast(x);
    CollapseGap(w, d, q);
    var g: string := if w == [] then [] else [' '];
    var n, rest := g + [d], Collapse(q);
    Regroup(g, [d], rest);
    Regroup(Collapse(x), g + [d], rest);
    Regroup(Collapse(x), g, [d]);
    Regroup([c], g, [d]);
    ContainsAcrossJoin(Collapse(all), Collapse(x), Collapse(y), n, rest, [c] + g + [d]);
  }

  /** Text ending in a non-space collapses to something ending in that
      character, which is preceded by the text before it. */
  lemma CollapseBefore(p: string, c: char)
    requires !IsSpace(c)
    ensures var x := Collapse(p + [c]); x != [] && x == x[..|x| - 1] + [c] && NonSpace(x[..|x| - 1]) == NonSpace(p)
  {
    var x := Collapse(p + [c]);
    assert (p + [c])[|p + [c]| - 1] == c;
    CollapseLast(p + [c]);
    var x0 := x[..|x| - 1];
    assert x == x0 + [c];
    CollapseKeepsText(p + [c]);
    NonSpaceAppend(p, [c]);
    NonSpaceAppend(x0, [c]);
    assert NonSpace([c]) == [c] by { assert [c][1..] == []; }
    CancelLast(NonSpace(x0), NonSpace(p), [c]);
  }

  /** Text that does not start with whitespace has nothing before its
      first non-space character. */
  lemma NoTextBeforeStart(r: string, t: string, rest: string)
    requires r == t + rest && (r == [] || !IsSpace(r[0])) && NonSpace(t) == []
    ensures t == []
  {
  }

  lemma CancelLast<T>(a: seq<T>, b: seq<T>, c: seq<T>)
    requires a + c == b + c
    ensures a == b
  {
    assert a == (a + c)[..|a|];
  }

  lemma RegroupMiddle<T>(x: seq<T>, c: seq<T>, g: seq<T>, d: seq<T>, y: seq<T>)
    ensures x + c + g + d + y == x + (c + g + d) + y
  {
  }

  lemma SliceOfSlice<T>(s: seq<T>, a: nat, b: nat, i: nat, j: nat)
    requires a <= b <= |s| && i <= j <= b - a
    ensures s[a..b][i..j] == s[a + i..a + j]
  {
    forall k | 0 <= k < j - i
      ensures s[a..b][i..j][k] == s[a + i..a + j][k]
    {
      assert s[a..b][i..j][k] == s[a..b][i + k];
    }
  }

  /** Trimming keeps everything between two non-space characters. */
  lemma TrimKeepsInner(s: string, k: nat, l: nat)
    requires k <= l < |s| && !IsSpace(s[k]) && !IsSpace(s[l])
    ensures Contains(Trim(s), s[k..l + 1])
  {
    var a := SpaceRunEnd(s, 0);
    var b := SpaceRunStart(s, |s|);
    assert a <= k;
    assert l < b;
    assert Trim(s) == s[a..b];
    SliceOfSlice(s, a, b, k - a, l + 1 - a);
    assert SliceAt(Trim(s), k - a, s[k..l + 1]);
  }

  /** Trimming keeps every piece of text that starts and ends with a
      non-space character. */
  lemma ContainsTrimmed(s: string, m: string)
    requires Contains(s, m) && m != [] && !IsSpace(m[0]) && !IsSpace(m[|m| - 1])
    ensures Contains(Trim(s), m)
  {
    var i :| 0 <= i <= |s| - |m| && SliceAt(s, i, m);
    assert s[i] == m[0] && s[i + |m| - 1] == m[|m| - 1];
    TrimKeepsInner(s, i, i + |m| - 1);
  }

  /** A piece of `s` that starts and ends with a non-space character stays
      in place when `s` is trimmed: only whitespace goes on either side. */
  lemma TrimAround(s: string, u: string, m: string, v: string)
    requires s == u + m + v && m != [] && !IsSpace(m[0]) && !IsSpace(m[|m| - 1])
    ensures exists u', v' :: Trim(s) == u' + m + v' && NonSpace(u') == NonSpace(u) && NonSpace(v') == NonSpace(v)
  {
    var a, b, e := SpaceRunEnd(s, 0), SpaceRunStart(s, |s|), |u| + |m|;
    TrimAroundSlice(s, u, m, v, a, b, e);
    TrimAroundText(s, u, m, v, a, b, e);
  }

  /** The trim of `u + m + v` is a suffix of `u`, then `m`, then a prefix of
      `v`. */
  lemma TrimAroundSlice(s: string, u: string, m: string, v: string, a: nat, b: nat, e: nat)
    requires s == u + m + v && m != [] && !IsSpace(m[0]) && !IsSpace(m[|m| - 1])
    requires a == SpaceRunEnd(s, 0) && b == SpaceRunStart(s, |s|) && e == |u| + |m|
    ensures a <= |u| && e <= b <= |s| && Trim(s) == u[a..] + m + v[..b - e]
  {
    TrimBounds(s, u, m, v);
    SliceAcross(s, u, m, v, a, b, b - e);
  }

  /** Those suffix and prefix hold the text of `u` and of `v`. */
  lemma TrimAroundText(s: string, u: string, m: string, v: string, a: nat, b: nat, e: nat)
    requires s == u + m + v && m != [] && !IsSpace(m[0]) && !IsSpace(m[|m| - 1])
    requires a == SpaceRunEnd(s, 0) && b == SpaceRunStart(s, |s|) && e == |u| + |m|
    ensures a <= |u| && e <= b <= |s|
    ensures NonSpace(u[a..]) == NonSpace(u) && NonSpace(v[..b - e]) == NonSpace(v)
  {
    TrimBounds(s, u, m, v);
    assert s[..|u|] == u && s[e..] == v;
    KeepAfterBlank(s, u, a);
    KeepBeforeBlank(s, v, e, b - e);
  }

  /** Dropping the front of `u = s[..|u|]` that lies in a leading blank run
      of `s` keeps the text of `u`. */
  lemma KeepAfterBlank(s: string, u: string, a: nat)
    requires a <= |u| <= |s| && s[..|u|] == u && forall k :: 0 <= k < a ==> IsSpace(s[k])
    ensures NonSpace(u[a..]) == NonSpace(u)
  {
    assert forall k :: 0 <= k < a ==> IsSpace(u[k]) by {
      assert forall k :: 0 <= k < a ==> u[k] == s[k];
    }
    NonSpaceOfBlankPrefix(u, a);
    NonSpaceSplit(u, a);
    SkipBlankEnds(NonSpace(u), NonSpace(u[..a]), NonSpace(u[a..]), [], NonSpace(u[..a]) + NonSpace(u[a..]));
  }

  /** Dropping the back of `v = s[e..]` that lies in a trailing blank run of
      `s` keeps the text of `v`. */
  lemma KeepBeforeBlank(s: string, v: string, e: nat, i: nat)
    requires e + i <= |s| && s[e..] == v && forall k :: e + i <= k < |s| ==> IsSpace(s[k])
    ensures NonSpace(v[..i]) == NonSpace(v)
  {
    assert forall k :: i <= k < |v| ==> IsSpace(v[k]) by {
      assert forall k :: i <= k < |v| ==> v[k] == s[e + k];
    }
    NonSpaceOfBlankSuffix(v, i);
    NonSpaceSplit(v, i);
    SkipBlankEnds(NonSpace(v), [], NonSpace(v[..i]), NonSpace(v[i..]), NonSpace(v[..i]));
  }

  lemma NonSpaceSplit(u: string, i: nat)
    requires i <= |u|
    ensures NonSpace(u) == NonSpace(u[..i]) + NonSpace(u[i..])
  {
    NonSpaceAppend(u[..i], u[i..]);
    SplitAt(u, i);
  }

  /** Where the trim cuts `u + m + v`: inside `u` and inside `v`. */
  lemma TrimBounds(s: string, u: string, m: string, v: string)
    requires s == u + m + v && m != [] && !IsSpace(m[0]) && !IsSpace(m[|m| - 1])
    ensures SpaceRunEnd(s, 0) <= |u| && |u| + |m| <= SpaceRunStart(s, |s|)
    ensures Trim(s) == s[SpaceRunEnd(s, 0)..SpaceRunStart(s, |s|)]
  {
    assert s[|u|] == m[0] && s[|u| + |m| - 1] == m[|m| - 1];
  }

  lemma SplitAt<T>(x: seq<T>, i: nat)
    requires i <= |x|
    ensures x[..i] + x[i..] == x
  {
  }

  /** A slice of `u + m + v` that covers `m` is a suffix of `u`, then `m`,
      then a prefix of `v`. */
  lemma SliceAcross<T>(s: seq<T>, u: seq<T>, m: seq<T>, v: seq<T>, a: nat, b: nat, i: nat)
    requires s == u + m + v && a <= |u| && |u| + |m| <= b <= |s| && i == b - |u| - |m|
    ensures s[a..b] == u[a..] + m + v[..i]
  {
    var r := u[a..] + m + v[..i];
    forall k | 0 <= k < b - a ensures s[a..b][k] == r[k] {
      if k < |u| - a { assert r[k] == u[a + k]; }
      else if k < |u| - a + |m| { assert r[k] == m[k - (|u| - a)]; }
      else { assert r[k] == v[k - (|u| - a) - |m|]; }
    }
  }

  /** A slice of a string with no double whitespace has none either. */
  lemma SliceNoDoubleSpace(s: string, i: int, j: int)
    requires 0 <= i <= j <= |s| && NoDoubleSpace(s)
    ensures NoDoubleSpace(s[i..j])
  {
    var t := s[i..j];
    forall k | 0 <= k < |t| - 1 ensures !(IsSpace(t[k]) && IsSpace(t[k + 1])) {
      assert t[k] == s[i + k] && t[k + 1] == s[i + k + 1];
    }
  }

  /** Trimming a string with no double whitespace leaves it well spaced. */
  lemma TrimWellSpaced(s: string)
    requires NoDoubleSpace(s)
    ensures WellSpaced(Trim(s))
  {
    TrimIsSlice(s);
    var i :| SliceAt(s, i, Trim(s));
    SliceNoDoubleSpace(s, i, i + |Trim(s)|);
  }

  // ---------------------------------------------------------------------
  // The "sample -" prefix: replace(/^sample\s*-\s*/i, '')
  // ---------------------------------------------------------------------

  /** Removes a leading "sample", optional whitespace, "-", optional
      whitespace; "sample" is matched regardless of case. */
  function StripSamplePrefix(s: string): (r: string) {
    if |s| >= 6 && Lower(s[..6]) == "sample" then
      var k := SpaceRunEnd(s, 6);
      if k < |s| && s[k] == '-' then s[SpaceRunEnd(s, k + 1)..] else s
    else s
  }

  /** `s` is "sample" in some letter case `p`, a whitespace run `w1`, "-",
      a whitespace run `w2`, then `rest`, which does not start with
      whitespace. */
  predicate SampleSplit(s: string, p: string, w1: string, w2: string, rest: string) {
    s == p + w1 + "-" + w2 + rest && |p| == 6 && Lower(p) == "sample"
    && (forall k :: 0 <= k < |w1| ==> IsSpace(w1[k]))
    && (forall k :: 0 <= k < |w2| ==> IsSpace(w2[k]))
    && (rest == [] || !IsSpace(rest[0]))
  }

  /** The whitespace run starting at `i` ends at `j`. */
  lemma SpaceRunEndIs(s: string, i: nat, j: nat)
    requires i <= j <= |s| && forall k :: i <= k < j ==> IsSpace(s[k])
    requires j == |s| || !IsSpace(s[j])
    ensures SpaceRunEnd(s, i) == j
  {
  }

  /** A "sample -" prefix is removed, up to the first character after it
      that is not whitespace. */
  lemma StripSampleRemoves(s: string, p: string, w1: string, w2: string, rest: string)
    requires SampleSplit(s, p, w1, w2, rest)
    ensures StripSamplePrefix(s) == rest
  {
    var k := 6 + |w1|;
    var j := k + 1 + |w2|;
    assert s[..6] == p;
    assert forall i :: 6 <= i < k ==> s[i] == w1[i - 6];
    assert s[k] == '-';
    SpaceRunEndIs(s, 6, k);
    assert forall i :: k + 1 <= i < j ==> s[i] == w2[i - k - 1];
    assert j < |s| ==> s[j] == rest[0];
    SpaceRunEndIs(s, k + 1, j);
    assert s[j..] == rest;
  }

  /** Text is changed only when it has a "sample -" prefix, and then what is
      left is the text after that prefix. */
  lemma StripSampleOnlyPrefix(s: string)
    ensures StripSamplePrefix(s) != s ==>
      exists p, w1, w2 :: SampleSplit(s, p, w1, w2, StripSamplePrefix(s))
  {
    if |s| >= 6 && Lower(s[..6]) == "sample" {
      var k := SpaceRunEnd(s, 6);
      if k < |s| && s[k] == '-' {
        var j := SpaceRunEnd(s, k + 1);
        SampleSplitAt(s, k, j);
      }
    }
  }

  /** Cutting `s` at the ends of its whitespace runs gives a `SampleSplit`. */
  lemma SampleSplitAt(s: string, k: nat, j: nat)
    requires 6 <= k < j <= |s| && Lower(s[..6]) == "sample" && s[k] == '-'
    requires forall i :: 6 <= i < k ==> IsSpace(s[i])
    requires forall i :: k + 1 <= i < j ==> IsSpace(s[i])
    requires j == |s| || !IsSpace(s[j])
    ensures SampleSplit(s, s[..6], s[6..k], s[k + 1..j], s[j..])
  {
    var p, w1, w2, rest := s[..6], s[6..k], s[k + 1..j], s[j..];
    assert p + w1 == s[..k];
    assert s[..k] + "-" == s[..k + 1];
    assert s[..k + 1] + w2 == s[..j];
    assert s[..j] + rest == s;
    assert forall i :: 0 <= i < |w1| ==> w1[i] == s[6 + i];
    assert forall i :: 0 <= i < |w2| ==> w2[i] == s[k + 1 + i];
    assert rest != [] ==> rest[0] == s[j];
  }

  /** The result is a suffix of the input, and anything removed began with
      "sample" in some case followed by at least a "-". */
  lemma StripSampleSuffix(s: string)
    ensures var r := StripSamplePrefix(s); |r| <= |s| && r == s[|s| - |r|..]
    ensures StripSamplePrefix(s) != s ==> |s| >= 7 && Lower(s[..6]) == "sample"
  {
    if |s| >= 6 && Lower(s[..6]) == "sample" {
      var k := SpaceRunEnd(s, 6);
      if k < |s| && s[k] == '-' {
        var j := SpaceRunEnd(s, k + 1);
        assert |s[j..]| == |s| - j;
      }
    }
  }

  // ---------------------------------------------------------------------
  // Other regular-expression replacements and searches
  // ---------------------------------------------------------------------

  /** replace(/\D/g, ''): the digits of `s`, in order. */
  function Digits(s: string): (r: string)
    ensures |r| <= |s|
    ensures AllDigits(r)
    ensures r == [] <==> !HasDigit(s)
  {
    if s == [] then []
    else
      var rest := Digits(s[1..]);
      HasDigitTail(s);
      (if IsDigit(s[0]) then [s[0]] else []) + rest
  }

  lemma HasDigitTail(s: string)
    requires s != []
    ensures HasDigit(s) <==> IsDigit(s[0]) || HasDigit(s[1..])
  {
    if HasDigit(s) && !IsDigit(s[0]) {
      var i :| 0 <= i < |s| && IsDigit(s[i]);
      assert IsDigit(s[1..][i - 1]);
    }
    if HasDigit(s[1..]) {
      var i :| 0 <= i < |s| - 1 && IsDigit(s[1..][i]);
      assert IsDigit(s[i + 1]);
    }
  }

  /** Removing the non-digits works piece by piece. */
  lemma {:induction false} DigitsAppend(a: string, b: string)
    ensures Digits(a + b) == Digits(a) + Digits(b)
  {
    if a == [] {
      assert a + b == b;
    } else {
      assert (a + b)[1..] == a[1..] + b;
      DigitsAppend(a[1..], b);
      Regroup(if IsDigit(a[0]) then [a[0]] else [], Digits(a[1..]), Digits(b));
    }
  }

  /** A digit is kept and any other character is dropped. */
  lemma DigitsOfChar(c: char)
    ensures Digits([c]) == if IsDigit(c) then [c] else []
  {
    assert [c][1..] == [];
  }

  /** A digit string is its own digits. */
  lemma {:induction false} DigitsOfDigits(s: string)
    requires AllDigits(s)
    ensures Digits(s) == s
  {
    if s != [] {
      DigitsOfDigits(s[1..]);
    }
  }

  /** A digit string between two texts without digits is all that is kept. */
  lemma DigitsBetween(p: string, d: string, q: string)
    requires !HasDigit(p) && !HasDigit(q) && AllDigits(d)
    ensures Digits(p + d + q) == d
  {
    DigitsAppend(p + d, q);
    DigitsAppend(p, d);
    DigitsOfDigits(d);
    assert [] + d + [] == d;
  }

  /** replace(/c/g, ''): `s` without any occurrence of `c`. */
  function RemoveChar(s: string, c: char): (r: string)
    ensures |r| <= |s|
    ensures c !in r
    ensures forall x :: x in s && x != c ==> x in r
  {
    if s == [] then [] else (if s[0] == c then [] else [s[0]]) + RemoveChar(s[1..], c)
  }

  /** Dropping one character distributes over concatenation, so the kept
      characters keep their order. */
  lemma {:induction false} RemoveCharAppend(a: string, b: string, c: char)
    ensures RemoveChar(a + b, c) == RemoveChar(a, c) + RemoveChar(b, c)
  {
    if a == [] {
      assert a + b == b;
    } else {
      assert (a + b)[1..] == a[1..] + b;
      RemoveCharAppend(a[1..], b, c);
      Regroup(if a[0] == c then [] else [a[0]], RemoveChar(a[1..], c), RemoveChar(b, c));
    }
  }

  /** The removed character is dropped and any other single character is
      kept. */
  lemma RemoveCharOfChar(x: char, c: char)
    ensures RemoveChar([x], c) == if x == c then [] else [x]
  {
    assert [x][1..] == [];
  }

  predicate IsQuote(c: char) { c == '"' || c == '\'' }

  /** One quote removed from the front when the text starts with one. */
  function LeadQuote(s: string): (a: nat) {
    if s != [] && IsQuote(s[0]) then 1 else 0
  }

  /** One quote removed from the back when, after the front one, a quote is
      left at the end. */
  function TrailQuote(s: string): (b: nat)
    ensures LeadQuote(s) + b <= |s|
  {
    if |s| > LeadQuote(s) && IsQuote(s[|s| - 1]) then 1 else 0
  }

  /** replace(/^["']|["']$/g, ''): a leading quote is removed exactly when
      there is one, and a trailing quote exactly when one is left at the end;
      everything between is kept. */
  function StripQuotes(s: string): (r: string)
    ensures |r| == |s| - LeadQuote(s) - TrailQuote(s)
    ensures SliceAt(s, LeadQuote(s), r)
  {
    var t := if s != [] && IsQuote(s[0]) then s[1..] else s;
    if t != [] && IsQuote(t[|t| - 1]) then
      assert t[..|t| - 1] == s[LeadQuote(s)..|s| - 1];
      t[..|t| - 1]
    else
      assert t == s[LeadQuote(s)..];
      t
  }

  /** Length of the run of digits `s` starts with. */
  function DigitRun(s: string): (n: nat)
    ensures n <= |s|
    ensures AllDigits(s[..n])
    ensures n < |s| ==> !IsDigit(s[n])
  {
    if s != [] && IsDigit(s[0]) then 1 + DigitRun(s[1..]) else 0
  }

  /** A decimal numeral: digits, optionally followed by '.' and digits. */
  predicate IsDecimal(s: string) {
    var n := DigitRun(s);
    n > 0 && (n == |s| || (s[n] == '.' && n + 1 < |s| && AllDigits(s[n + 1..])))
  }

  /** The numeral `r` found at position i could be matched longer: a digit
      follows it, or, when it has no point yet, a point and a digit do. */
  predicate Extensible(s: string, i: nat, r: string)
    requires i + |r| <= |s|
  {
    var e := i + |r|;
    e < |s| && (IsDigit(s[e]) || ('.' !in r && s[e] == '.' && e + 1 < |s| && IsDigit(s[e + 1])))
  }

  /** `r` is the match the regular expression reports at i: it occurs there,
      no digit comes before it, and it cannot be extended. */
  predicate NumberAt(s: string, i: nat, r: string) {
    SliceAt(s, i, r) && !HasDigit(s[..i]) && !Extensible(s, i, r)
  }

  /** match(/(\d+(\.\d+)?)/)[0], or "" when there is no match: the leftmost,
      longest decimal numeral in `s`. */
  function FirstNumber(s: string): (r: string)
    ensures r == [] <==> !HasDigit(s)
    ensures r != [] ==> IsDecimal(r)
    ensures r != [] ==> exists i :: NumberAt(s, i, r)
  {
    if s == [] then []
    else if IsDigit(s[0]) then
      var n := DigitRun(s);
      assert s[..0] == [];
      if n + 1 < |s| && s[n] == '.' && IsDigit(s[n + 1]) then
        var m := DigitRun(s[n + 1..]);
        DecimalAtStart(s, n, m);
        assert s[..n + 1 + m][n] == '.';
        assert n + 1 + m < |s| ==> s[n + 1 + m] == s[n + 1..][m];
        assert NumberAt(s, 0, s[..n + 1 + m]);
        s[..n + 1 + m]
      else
        IntegerAtStart(s, n);
        assert '.' !in s[..n] by {
          assert AllDigits(s[..n]);
        }
        assert NumberAt(s, 0, s[..n]);
        s[..n]
    else
      var r := FirstNumber(s[1..]);
      HasDigitTail(s);
      if r != [] then
        var i :| NumberAt(s[1..], i, r);
        NumberShift(s, i, r);
        r
      else r
  }

  /** A match in the tail is a match in the whole when the first character
      is not a digit. */
  lemma NumberShift(s: string, i: nat, r: string)
    requires s != [] && !IsDigit(s[0]) && NumberAt(s[1..], i, r)
    ensures NumberAt(s, i + 1, r)
  {
    assert s[i + 1..i + 1 + |r|] == s[1..][i..i + |r|];
    assert s[..i + 1] == [s[0]] + s[1..][..i];
    HasDigitTail(s[..i + 1]);
    assert s[..i + 1][1..] == s[1..][..i];
    var e := i + 1 + |r|;
    if e < |s| {
      assert s[e] == s[1..][e - 1];
      if e + 1 < |s| {
        assert s[e + 1] == s[1..][e];
      }
    }
  }

  /** Digits, a '.', and the digits after it, at the start of `s`. */
  lemma DecimalAtStart(s: string, n: nat, m: nat)
    requires 0 < n == DigitRun(s) && n + 1 < |s| && s[n] == '.' && IsDigit(s[n + 1]) && m == DigitRun(s[n + 1..])
    ensures n + 1 + m <= |s| && IsDecimal(s[..n + 1 + m]) && SliceAt(s, 0, s[..n + 1 + m])
  {
    assert 1 <= m <= |s| - (n + 1) by { DigitRunOfDigit(s[n + 1..]); }
    var r := s[..n + 1 + m];
    assert DigitRun(r) == n by { DigitRunOfPrefix(s, n + 1 + m); }
    assert AllDigits(r[n + 1..]) by { DigitsAfterPoint(s, n, m, r); }
    assert r[n] == '.';
    assert IsDecimal(r) by { DecimalOfParts(r, n); }
    assert s[0..|r|] == r;
  }

  lemma DigitRunOfDigit(t: string)
    requires t != [] && IsDigit(t[0])
    ensures DigitRun(t) >= 1
  {
  }

  /** Digits, a '.' and more digits make a decimal numeral. */
  lemma DecimalOfParts(r: string, n: nat)
    requires 0 < n == DigitRun(r) && n + 1 < |r| && r[n] == '.' && AllDigits(r[n + 1..])
    ensures IsDecimal(r)
  {
  }

  lemma DigitsAfterPoint(s: string, n: nat, m: nat, r: string)
    requires n + 1 <= |s| && m == DigitRun(s[n + 1..]) && r == s[..n + 1 + m]
    ensures AllDigits(r[n + 1..])
  {
    assert r[n + 1..] == s[n + 1..][..m];
  }

  /** The digits at the start of `s`. */
  lemma IntegerAtStart(s: string, n: nat)
    requires 0 < n == DigitRun(s)
    ensures IsDecimal(s[..n]) && SliceAt(s, 0, s[..n])
  {
    assert DigitRun(s[..n]) == n by { DigitRunOfPrefix(s, n); }
    assert SliceAt(s, 0, s[..n]);
  }

  lemma {:induction false} DigitRunOfPrefix(s: string, k: nat)
    requires DigitRun(s) <= k <= |s|
    ensures DigitRun(s[..k]) == DigitRun(s)
  {
    if s != [] && IsDigit(s[0]) {
      assert s[..k][1..] == s[1..][..k - 1];
      DigitRunOfPrefix(s[1..], k - 1);
    }
  }

  /** includes(sub): `sub` occurs in `s` as a contiguous slice. */
  predicate Contains(s: string, sub: string) {
    exists i | 0 <= i <= |s| - |sub| :: SliceAt(s, i, sub)
  }

  /** replace(pat, ''), with a string pattern: only the first occurrence is
      removed. */
  function RemoveFirst(s: string, pat: string): (r: string)
    ensures Contains(s, pat) ==> |r| == |s| - |pat|
    ensures Contains(s, pat) ==> exists i: nat :: FirstAt(s, i, pat) && r == s[..i] + s[i + |pat|..]
    ensures !Contains(s, pat) ==> r == s
  {
    if |pat| <= |s| && s[..|pat|] == pat then
      RemoveFirstHead(s, pat);
      s[|pat|..]
    else if s == [] then s
    else
      var rest := RemoveFirst(s[1..], pat);
      RemoveFirstCons(s, pat, rest);
      [s[0]] + rest
  }

  /** An occurrence at the start is the first one. */
  lemma RemoveFirstHead(s: string, pat: string)
    requires |pat| <= |s| && s[..|pat|] == pat
    ensures Contains(s, pat) && FirstAt(s, 0, pat) && s[|pat|..] == s[..0] + s[0 + |pat|..]
  {
    assert SliceAt(s, 0, pat);
  }

  /** When no occurrence starts at 0, the removal in the tail with the first
      character put back is the removal in the whole. */
  lemma RemoveFirstCons(s: string, pat: string, rest: string)
    requires s != [] && !(|pat| <= |s| && s[..|pat|] == pat)
    requires Contains(s[1..], pat) ==> |rest| == |s[1..]| - |pat|
    requires Contains(s[1..], pat) ==>
      exists i: nat :: FirstAt(s[1..], i, pat) && rest == s[1..][..i] + s[1..][i + |pat|..]
    requires !Contains(s[1..], pat) ==> rest == s[1..]
    ensures Contains(s, pat) ==> |[s[0]] + rest| == |s| - |pat|
    ensures Contains(s, pat) ==>
      exists i: nat :: FirstAt(s, i, pat) && [s[0]] + rest == s[..i] + s[i + |pat|..]
    ensures !Contains(s, pat) ==> [s[0]] + rest == s
  {
    ContainsShift(s, pat);
    if Contains(s[1..], pat) {
      var i: nat :| FirstAt(s[1..], i, pat) && rest == s[1..][..i] + s[1..][i + |pat|..];
      RemoveFirstStep(s, pat, rest, i);
    }
  }

  /** The removal in the tail, with the first character put back. */
  lemma RemoveFirstStep(s: string, pat: string, rest: string, i: nat)
    requires s != [] && !(|pat| <= |s| && s[..|pat|] == pat)
    requires FirstAt(s[1..], i, pat) && rest == s[1..][..i] + s[1..][i + |pat|..]
    ensures FirstAt(s, i + 1, pat) && [s[0]] + rest == s[..i + 1] + s[i + 1 + |pat|..]
  {
    FirstShift(s, i, pat);
    assert s[..i + 1] == [s[0]] + s[1..][..i];
    assert s[i + 1 + |pat|..] == s[1..][i + |pat|..];
  }

  /** The first occurrence of `pat` in `s` starts at i. */
  predicate FirstAt(s: string, i: nat, pat: string) {
    SliceAt(s, i, pat) && forall j :: 0 <= j < i ==> !SliceAt(s, j, pat)
  }

  /** The first occurrence in the tail is the first in the whole when none
      starts at 0. */
  lemma FirstShift(s: string, i: nat, pat: string)
    requires s != [] && !(|pat| <= |s| && s[..|pat|] == pat) && FirstAt(s[1..], i, pat)
    ensures FirstAt(s, i + 1, pat)
  {
    assert s[i + 1..i + 1 + |pat|] == s[1..][i..i + |pat|];
    forall j | 0 <= j < i + 1 ensures !SliceAt(s, j, pat) {
      if j > 0 && SliceAt(s, j, pat) {
        assert s[1..][j - 1..j - 1 + |pat|] == s[j..j + |pat|];
        assert SliceAt(s[1..], j - 1, pat);
      }
    }
  }

  lemma ContainsShift(s: string, pat: string)
    requires s != [] && !(|pat| <= |s| && s[..|pat|] == pat)
    ensures Contains(s, pat) <==> Contains(s[1..], pat)
  {
    if Contains(s, pat) {
      var i :| 0 <= i <= |s| - |pat| && SliceAt(s, i, pat);
      assert i != 0;
      assert s[1..][i - 1..i - 1 + |pat|] == s[i..i + |pat|];
      assert SliceAt(s[1..], i - 1, pat);
    }
    if Contains(s[1..], pat) {
      var i :| 0 <= i <= |s| - 1 - |pat| && SliceAt(s[1..], i, pat);
      assert s[1..][i..i + |pat|] == s[i + 1..i + 1 + |pat|];
      assert SliceAt(s, i + 1, pat);
    }
  }

  // ---------------------------------------------------------------------
  // split
  // ---------------------------------------------------------------------

  /** split(sep) with a one-character separator. */
  function Split(s: string, sep: char): (r: seq<string>)
    ensures |r| >= 1
    ensures forall i :: 0 <= i < |r| ==> sep !in r[i]
  {
    if s == [] then [[]]
    else
      var rest := Split(s[1..], sep);
      if s[0] == sep then [[]] + rest else [[s[0]] + rest[0]] + rest[1..]
  }

  /** join(sep), the inverse of Split. */
  function Join(parts: seq<string>, sep: char): string
    requires |parts| >= 1
  {
    if |parts| == 1 then parts[0] else parts[0] + [sep] + Join(parts[1..], sep)
  }

  lemma {:induction false} SplitJoin(s: string, sep: char)
    ensures Join(Split(s, sep), sep) == s
  {
    if s != [] {
      var rest := Split(s[1..], sep);
      SplitJoin(s[1..], sep);
      if s[0] == sep {
        assert ([[]] + rest)[1..] == rest;
      } else {
        var r := [[s[0]] + rest[0]] + rest[1..];
        if |rest| == 1 {
        } else {
          assert r[1..] == rest[1..];
          assert Join(rest, sep) == rest[0] + [sep] + Join(rest[1..], sep);
        }
      }
    }
  }

  /** split(/\r?\n/): split on '\n', dropping one '\r' right before each '\n'. */
  function SplitLines(s: string): (r: seq<string>)
    ensures |r| == |Split(s, '\n')| >= 1
    ensures forall i :: 0 <= i < |r| ==> '\n' !in r[i]
    ensures forall i :: 0 <= i < |r| ==> Split(s, '\n')[i] == r[i] + LineEnd(Split(s, '\n'), i)
  {
    var parts := Split(s, '\n');
    seq(|parts|, i requires 0 <= i < |parts| =>
      if i < |parts| - 1 && parts[i] != [] && parts[i][|parts[i]| - 1] == '\r'
      then parts[i][..|parts[i]| - 1] else parts[i])
  }

  /** The '\r' that `split(/\r?\n/)` drops from part i: one, when the part
      ends in '\r' and a '\n' follows it. */
  function LineEnd(parts: seq<string>, i: nat): string
    requires i < |parts|
  {
    if i < |parts| - 1 && parts[i] != [] && parts[i][|parts[i]| - 1] == '\r' then "\r" else ""
  }

  /** Putting back the dropped '\r's and joining the lines with '\n' gives
      back the text. */
  lemma SplitLinesJoin(s: string)
    ensures exists parts :: (|parts| == |SplitLines(s)| >= 1 && Join(parts, '\n') == s
      && forall i :: 0 <= i < |parts| ==> parts[i] == SplitLines(s)[i] + LineEnd(parts, i))
  {
    SplitJoin(s, '\n');
  }

  // ---------------------------------------------------------------------
  // parseInt(s, 10)
  // ---------------------------------------------------------------------

  /** The value of a string of decimal digits. */
  function DecimalValue(s: string): nat
    requires AllDigits(s)
  {
    if s == [] then 0 else DecimalValue(s[..|s| - 1]) * 10 + (s[|s| - 1] as int - '0' as int)
  }

  /** parseInt(s, 10): leading whitespace, an optional sign, then the longest
      run of digits; `None` stands for NaN (no digit after the sign). */
  function ParseInt(s: string): (r: Option<int>)
    ensures r.None? <==> DigitRun(SignStripped(TrimStart(s))) == 0
  {
    var t := TrimStart(s);
    var u := SignStripped(t);
    var n := DigitRun(u);
    if n == 0 then None
    else
      var v: int := DecimalValue(u[..n]);
      Some(if t[0] == '-' then -v else v)
  }

  function SignStripped(t: string): string {
    if t != [] && (t[0] == '-' || t[0] == '+') then t[1..] else t
  }

  /** The decimal numeral of a natural number, without leading zeros. */
  function NatToString(n: nat): (r: string)
    ensures r != [] && AllDigits(r)
  {
    if n < 10 then [('0' as int + n) as char]
    else NatToString(n / 10) + [('0' as int + n % 10) as char]
  }

  lemma {:induction false} DecimalOfNatToString(n: nat)
    ensures DecimalValue(NatToString(n)) == n
  {
    if n >= 10 {
      DecimalOfNatToString(n / 10);
      var s := NatToString(n);
      assert s[..|s| - 1] == NatToString(n / 10);
    }
  }

  /** parseInt reads back a natural number's numeral. */
  lemma ParseIntOfNatToString(n: nat)
    ensures ParseInt(NatToString(n)) == Some(n)
  {
    var s := NatToString(n);
    assert TrimStart(s) == s;
    assert SignStripped(s) == s;
    assert DigitRun(s) == |s| by { AllDigitsRun(s); }
    assert s[..|s|] == s;
    DecimalOfNatToString(n);
  }

  /** A minus sign in front of a numeral negates its value. */
  lemma ParseIntOfNegative(n: nat)
    ensures ParseInt("-" + NatToString(n)) == Some(-(n as int))
  {
    var d := NatToString(n);
    var s := "-" + d;
    assert s[0] == '-';
    assert TrimStart(s) == s;
    assert SignStripped(s) == d;
    assert DigitRun(d) == |d| by { AllDigitsRun(d); }
    assert d[..|d|] == d;
    DecimalOfNatToString(n);
  }

  lemma {:induction false} AllDigitsRun(s: string)
    requires AllDigits(s)
    ensures DigitRun(s) == |s|
  {
    if s != [] { AllDigitsRun(s[1..]); }
  }

  /** A digit run in front of `b` adds its length to the run of `b`. */
  lemma {:induction false} DigitRunAppend(a: string, b: string)
    requires AllDigits(a)
    ensures DigitRun(a + b) == |a| + DigitRun(b)
  {
    if a == [] {
      assert a + b == b;
    } else {
      assert (a + b)[1..] == a[1..] + b;
      DigitRunAppend(a[1..], b);
    }
  }

  /** A string of '0's is worth nothing. */
  lemma {:induction false} DecimalOfZeros(zs: string)
    requires forall k :: 0 <= k < |zs| ==> zs[k] == '0'
    ensures AllDigits(zs) && DecimalValue(zs) == 0
  {
    if zs != [] {
      DecimalOfZeros(zs[..|zs| - 1]);
    }
  }

  /** Leading zeros do not change the value of a numeral. */
  lemma {:induction false} DecimalLeadingZeros(zs: string, d: string)
    requires (forall k :: 0 <= k < |zs| ==> zs[k] == '0') && AllDigits(d)
    ensures AllDigits(zs + d) && DecimalValue(zs + d) == DecimalValue(d)
    decreases |d|
  {
    if d == [] {
      assert zs + d == zs;
      DecimalOfZeros(zs);
    } else {
      var e := d[..|d| - 1];
      assert (zs + d)[..|zs + d| - 1] == zs + e;
      assert (zs + d)[|zs + d| - 1] == d[|d| - 1];
      DecimalLeadingZeros(zs, e);
    }
  }

  /** parseInt skips leading whitespace, reads an optional sign and the
      digits after it, and ignores whatever follows the digits. */
  lemma ParseIntOfDigits(ws: string, sg: string, ds: string, q: string)
    requires forall k :: 0 <= k < |ws| ==> IsSpace(ws[k])
    requires sg == "" || sg == "+" || sg == "-"
    requires ds != [] && AllDigits(ds) && (q == [] || !IsDigit(q[0]))
    ensures ParseInt(ws + sg + ds + q) == Some(if sg == "-" then -(DecimalValue(ds) as int) else DecimalValue(ds))
  {
    var u := ds + q;
    var t := sg + u;
    var s := ws + t;
    assert ws + sg + ds + q == s by { Regroup4(ws, sg, ds, q); }
    var neg := t[0] == '-';
    assert SignStripped(t) == u && !IsSpace(t[0]) && neg == (sg == "-") by { SignThenDigits(sg, u); }
    assert TrimStart(s) == t by { TrimStartRun(ws, t); }
    assert DigitRun(u) == |ds| by {
      DigitRunAppend(ds, q);
      assert DigitRun(q) == 0;
    }
    assert u[..|ds|] == ds;
    ParseIntSteps(s, t, u, |ds|, ds);
  }

  /** An optional sign in front of a digit. */
  lemma SignThenDigits(sg: string, u: string)
    requires sg == "" || sg == "+" || sg == "-"
    requires u != [] && IsDigit(u[0])
    ensures var t := sg + u; t != [] && !IsSpace(t[0]) && SignStripped(t) == u && (t[0] == '-' <==> sg == "-")
  {
    if sg == "" {
      assert sg + u == u;
    } else {
      assert (sg + u)[0] == sg[0];
      assert (sg + u)[1..] == u;
    }
  }

  lemma Regroup4<T>(a: seq<T>, b: seq<T>, c: seq<T>, d: seq<T>)
    ensures a + (b + (c + d)) == a + b + c + d
  {
  }

  /** The steps of parseInt, one at a time. */
  lemma ParseIntSteps(s: string, t: string, u: string, n: nat, d: string)
    requires TrimStart(s) == t && SignStripped(t) == u && 0 < n == DigitRun(u) && u[..n] == d
    ensures t != [] && AllDigits(d) && ParseInt(s) == Some(if t[0] == '-' then -(DecimalValue(d) as int) else DecimalValue(d))
  {
  }

  /** In particular a numeral with leading zeros, a sign or a trailing unit,
      such as "+2", "007" or "3 pcs", reads as its number. */
  lemma ParseIntOfPadded(ws: string, sg: string, zs: string, n: nat, q: string)
    requires forall k :: 0 <= k < |ws| ==> IsSpace(ws[k])
    requires sg == "" || sg == "+" || sg == "-"
    requires (forall k :: 0 <= k < |zs| ==> zs[k] == '0') && (q == [] || !IsDigit(q[0]))
    ensures ParseInt(ws + sg + zs + NatToString(n) + q) == Some(if sg == "-" then -(n as int) else n)
  {
    var d := NatToString(n);
    var ds := zs + d;
    assert AllDigits(ds) && DecimalValue(ds) == n by {
      DecimalLeadingZeros(zs, d);
      DecimalOfNatToString(n);
    }
    var s := ws + sg + ds + q;
    assert ws + sg + zs + d + q == s by { Regroup(ws + sg, zs, d); }
    ParseIntOfDigits(ws, sg, ds, q);
  }

  // ---------------------------------------------------------------------
  // Whole-word, case-insensitive removal: replace(/\bW\b/gi, '')
  // ---------------------------------------------------------------------

  /** `\b` at position p of s. */
  predicate Boundary(s: string, p: int)
    requires 0 <= p <= |s|
  {
    (p > 0 && IsWordChar(s[p - 1])) != (p < |s| && IsWordChar(s[p]))
  }

  /** `w` occurs at position i of `s`, ignoring case, as a whole word. */
  predicate WholeWordAt(s: string, w: string, i: int) {
    0 <= i && i + |w| <= |s| && Lower(s[i..i + |w|]) == Lower(w)
    && Boundary(s, i) && Boundary(s, i + |w|)
  }

  /** The global scan from position i: each match is dropped and the scan
      resumes after it; other characters are kept. */
  function RemoveFrom(s: string, w: string, i: nat): (r: string)
    requires |w| > 0 && i <= |s|
    ensures |r| <= |s| - i
    ensures (exists j :: i <= j && WholeWordAt(s, w, j)) ==> |r| < |s| - i
    decreases |s| - i
  {
    if i == |s| then []
    else if WholeWordAt(s, w, i) then RemoveFrom(s, w, i + |w|)
    else
      var r := [s[i]] + RemoveFrom(s, w, i + 1);
      assert (exists j :: i <= j && WholeWordAt(s, w, j)) ==> exists j :: i + 1 <= j && WholeWordAt(s, w, j);
      r
  }

  /** Removes every whole-word, case-insensitive occurrence of `w`. */
  function RemoveWholeWord(s: string, w: string): (r: string)
    ensures |r| <= |s|
  {
    if w == [] then s else RemoveFrom(s, w, 0)
  }

  lemma {:induction false} RemoveFromUnmatched(s: string, w: string, i: nat)
    requires |w| > 0 && i <= |s|
    requires forall j :: i <= j ==> !WholeWordAt(s, w, j)
    ensures RemoveFrom(s, w, i) == s[i..]
    decreases |s| - i
  {
    if i < |s| {
      RemoveFromUnmatched(s, w, i + 1);
      assert s[i..] == [s[i]] + s[i + 1..];
    }
  }

  /** Removal changes the text exactly when the word occurs in it. */
  lemma RemoveWholeWordChanges(s: string, w: string)
    requires w != []
    ensures RemoveWholeWord(s, w) == s <==> forall j :: !WholeWordAt(s, w, j)
  {
    if forall j :: !WholeWordAt(s, w, j) {
      RemoveFromUnmatched(s, w, 0);
    }
  }
}
