/** The Python string operations the scraper relies on: `startswith`, `in`,
    `split`, `strip`, `lower` and `replace`, over `string` = `seq<char>`. */
module Strings {

  /** `s.startswith(p)`. */
  predicate StartsWith(s: string, p: string) {
    |p| <= |s| && s[..|p|] == p
  }

  /** `t` occurs in `s` starting at index `i`. */
  predicate OccursAt(s: string, t: string, i: int) {
    0 <= i && i + |t| <= |s| && s[i..i + |t|] == t
  }

  /** Python's substring test `t in s`, by scanning `s` from the left. */
  predicate Contains(s: string, t: string)
    decreases |s|
  {
    StartsWith(s, t) || (|s| > 0 && Contains(s[1..], t))
  }

  /** The scan agrees with the positional definition of an occurrence. */
  lemma {:induction false} ContainsIff(s: string, t: string)
    ensures Contains(s, t) <==> exists i :: OccursAt(s, t, i)
    decreases |s|
  {
    if StartsWith(s, t) {
      assert OccursAt(s, t, 0);
    }
    if |s| > 0 {
      ContainsIff(s[1..], t);
      if Contains(s[1..], t) {
        var i :| OccursAt(s[1..], t, i);
        assert s[i + 1..i + 1 + |t|] == s[1..][i..i + |t|];
        assert OccursAt(s, t, i + 1);
      }
      if exists i :: OccursAt(s, t, i) {
        var i :| OccursAt(s, t, i);
        if i > 0 {
          assert s[1..][i - 1..i - 1 + |t|] == s[i..i + |t|];
          assert OccursAt(s[1..], t, i - 1);
        } else {
          assert StartsWith(s, t);
        }
      }
    } else if exists i :: OccursAt(s, t, i) {
      var i :| OccursAt(s, t, i);
      assert |t| == 0;
      assert StartsWith(s, t);
    }
  }

  // ---------------------------------------------------------------------
  // split on one separator character

  /** `s.split(c)` for a one-character separator: the pieces between
      consecutive occurrences of `c`, so there is one more piece than
      there are separators. */
  function Split(s: string, c: char): (parts: seq<string>)
    ensures |parts| >= 1
    ensures forall i :: 0 <= i < |parts| ==> c !in parts[i]
    decreases |s|
  {
    if |s| == 0 then [""]
    else
      var rest := Split(s[1..], c);
      if s[0] == c then [""] + rest
      else [[s[0]] + rest[0]] + rest[1..]
  }

  /** A split has one more piece than `s` has separators. */
  lemma {:induction false} SplitCount(s: string, c: char)
    ensures |Split(s, c)| == multiset(s)[c] + 1
    decreases |s|
  {
    if |s| > 0 {
      SplitCount(s[1..], c);
      assert s == [s[0]] + s[1..];
      assert multiset(s) == multiset([s[0]]) + multiset(s[1..]);
    }
  }

  /** `c.join(parts)`. */
  function JoinWith(parts: seq<string>, c: char): string
    requires |parts| >= 1
    decreases |parts|
  {
    if |parts| == 1 then parts[0]
    else parts[0] + [c] + JoinWith(parts[1..], c)
  }

  /** Joining the pieces of a split gives back the original string. */
  lemma {:induction false} JoinSplit(s: string, c: char)
    ensures JoinWith(Split(s, c), c) == s
    decreases |s|
  {
    if |s| > 0 {
      var rest := Split(s[1..], c);
      JoinSplit(s[1..], c);
      var parts := Split(s, c);
      assert s == [s[0]] + s[1..];
      if s[0] == c {
        assert parts == [""] + rest;
        assert parts[1..] == rest;
        assert JoinWith(parts, c) == "" + [c] + JoinWith(rest, c);
      } else {
        assert parts == [[s[0]] + rest[0]] + rest[1..];
        if |rest| == 1 {
          assert JoinWith(rest, c) == rest[0];
          assert JoinWith(parts, c) == [s[0]] + rest[0];
        } else {
          assert parts[1..] == rest[1..];
          assert JoinWith(rest, c) == rest[0] + [c] + JoinWith(rest[1..], c);
          assert JoinWith(parts, c) == ([s[0]] + rest[0]) + [c] + JoinWith(rest[1..], c);
          assert JoinWith(parts, c) == [s[0]] + (rest[0] + [c] + JoinWith(rest[1..], c));
        }
      }
    }
  }

  /** A string free of the separator splits into itself alone. */
  lemma {:induction false} SplitWithout(a: string, c: char)
    requires c !in a
    ensures Split(a, c) == [a]
    decreases |a|
  {
    if |a| > 0 {
      SplitWithout(a[1..], c);
      assert [a[0]] + a[1..] == a;
    }
  }

  /** Splitting at the first separator peels off the text before it. */
  lemma {:induction false} SplitAfter(a: string, c: char, b: string)
    requires c !in a
    ensures Split(a + [c] + b, c) == [a] + Split(b, c)
    decreases |a|
  {
    var s := a + [c] + b;
    if |a| == 0 {
      assert s[1..] == b;
    } else {
      assert s[1..] == a[1..] + [c] + b;
      SplitAfter(a[1..], c, b);
      assert [a[0]] + a[1..] == a;
    }
  }

  /** Splitting a join of separator-free pieces gives back the pieces. */
  lemma {:induction false} SplitJoin(parts: seq<string>, c: char)
    requires |parts| >= 1
    requires forall i :: 0 <= i < |parts| ==> c !in parts[i]
    ensures Split(JoinWith(parts, c), c) == parts
    decreases |parts|
  {
    if |parts| == 1 {
      SplitWithout(parts[0], c);
    } else {
      SplitJoin(parts[1..], c);
      SplitAfter(parts[0], c, JoinWith(parts[1..], c));
    }
  }

  /** The first piece of a split is the text before the first separator. */
  lemma {:induction false} SplitHead(s: string, c: char)
    ensures StartsWith(s, Split(s, c)[0])
    ensures |Split(s, c)[0]| == |s| || s[|Split(s, c)[0]|] == c
    decreases |s|
  {
    if |s| > 0 && s[0] != c {
      SplitHead(s[1..], c);
    }
  }

  // ---------------------------------------------------------------------
  // strip

  /** Python's `str.isspace` for one character. */
  predicate IsSpace(ch: char) {
    || ('\t' <= ch <= '\r')
    || ('\U{1c}' <= ch <= ' ')
    || ch == '\U{85}' || ch == '\U{a0}' || ch == '\U{1680}'
    || ('\U{2000}' <= ch <= '\U{200a}')
    || ch == '\U{2028}' || ch == '\U{2029}' || ch == '\U{202f}'
    || ch == '\U{205f}' || ch == '\U{3000}'
  }

  /** Number of whitespace characters at the front of `s`. */
  function LeadingSpaces(s: string): (n: nat)
    ensures n <= |s|
    ensures forall i :: 0 <= i < n ==> IsSpace(s[i])
    ensures n == |s| || !IsSpace(s[n])
    decreases |s|
  {
    if |s| > 0 && IsSpace(s[0]) then 1 + LeadingSpaces(s[1..]) else 0
  }

  /** Length of `s` without its trailing whitespace. */
  function TextEnd(s: string): (m: nat)
    ensures m <= |s|
    ensures forall i :: m <= i < |s| ==> IsSpace(s[i])
    ensures m == 0 || !IsSpace(s[m - 1])
    decreases |s|
  {
    if |s| > 0 && IsSpace(s[|s| - 1]) then TextEnd(s[..|s| - 1]) else |s|
  }

  /** `r` is the slice of `s` starting at `k`, and everything of `s`
      around that slice is whitespace. */
  predicate StrippedAt(s: string, r: string, k: int) {
    && 0 <= k <= k + |r| <= |s| && r == s[k..k + |r|]
    && (forall i :: 0 <= i < k ==> IsSpace(s[i]))
    && (forall i :: k + |r| <= i < |s| ==> IsSpace(s[i]))
  }

  /** `s.strip()`: the middle slice of `s` that neither starts nor ends
      with whitespace, all of whose surroundings are whitespace. */
  function Strip(s: string): (r: string)
    ensures exists k :: StrippedAt(s, r, k)
    ensures |r| == 0 || (!IsSpace(r[0]) && !IsSpace(r[|r| - 1]))
  {
    var k := LeadingSpaces(s);
    var m := TextEnd(s);
    if m <= k then
      assert StrippedAt(s, "", |s|);
      ""
    else
      assert StrippedAt(s, s[k..m], k);
      s[k..m]
  }

  // ---------------------------------------------------------------------
  // lower

  predicate IsUpper(ch: char) { 'A' <= ch <= 'Z' }

  predicate IsLetter(ch: char) { 'A' <= ch <= 'Z' || 'a' <= ch <= 'z' }

  predicate IsDigit(ch: char) { '0' <= ch <= '9' }

  /** Lower-cases one ASCII letter; every other character is kept. */
  function LowerChar(ch: char): char {
    if IsUpper(ch) then (ch as int + 32) as char else ch
  }

  /** `s.lower()`, restricted to ASCII letters. */
  function Lower(s: string): (r: string)
    ensures |r| == |s|
    ensures forall i :: 0 <= i < |s| ==> r[i] == LowerChar(s[i])
    ensures forall i :: 0 <= i < |r| ==> !IsUpper(r[i])
  {
    seq(|s|, i requires 0 <= i < |s| => LowerChar(s[i]))
  }

  /** Lower-casing twice is lower-casing once. */
  lemma LowerIdempotent(s: string)
    ensures Lower(Lower(s)) == Lower(s)
  {
  }

  /** Lower-casing leaves a string unchanged exactly when it holds no
      upper-case letter. */
  lemma LowerFixed(s: string)
    ensures Lower(s) == s <==> forall i :: 0 <= i < |s| ==> !IsUpper(s[i])
  {
    if Lower(s) == s {
      forall i | 0 <= i < |s| ensures !IsUpper(s[i]) {
        assert Lower(s)[i] == s[i];
      }
    }
  }

  /** Lower-casing works piecewise on a concatenation. */
  lemma LowerAppend(a: string, b: string)
    ensures Lower(a + b) == Lower(a) + Lower(b)
  {
  }

  /** A character that is not a letter occurs in `Lower(s)` exactly as
      often as in `s`. */
  lemma {:induction false} LowerKeepsCount(s: string, ch: char)
    requires !IsLetter(ch)
    ensures multiset(Lower(s))[ch] == multiset(s)[ch]
    decreases |s|
  {
    if |s| > 0 {
      LowerKeepsCount(s[1..], ch);
      assert s == [s[0]] + s[1..];
      LowerAppend([s[0]], s[1..]);
      assert multiset(s) == multiset([s[0]]) + multiset(s[1..]);
      assert multiset(Lower(s)) == multiset(Lower([s[0]])) + multiset(Lower(s[1..]));
      assert Lower([s[0]]) == [LowerChar(s[0])];
    }
  }

  // ---------------------------------------------------------------------
  // replace

  /** `s.replace(pat, rep)`: every non-overlapping occurrence of `pat`,
      found from the left, is replaced by `rep`. */
  function ReplaceAll(s: string, pat: string, rep: string): (r: string)
    requires |pat| > 0
    decreases |s|
  {
    if |s| < |pat| then s
    else if s[..|pat|] == pat then rep + ReplaceAll(s[|pat|..], pat, rep)
    else [s[0]] + ReplaceAll(s[1..], pat, rep)
  }

  /** A string in which `pat` does not occur is left unchanged. */
  lemma {:induction false} ReplaceAbsent(s: string, pat: string, rep: string)
    requires |pat| > 0 && !Contains(s, pat)
    ensures ReplaceAll(s, pat, rep) == s
    decreases |s|
  {
    if |s| >= |pat| {
      assert s[..|pat|] != pat;
      assert !Contains(s[1..], pat);
      ReplaceAbsent(s[1..], pat, rep);
      assert [s[0]] + s[1..] == s;
    }
  }

  /** A string free of the pattern's first character is left unchanged. */
  lemma ReplaceUntouched(s: string, pat: string, rep: string)
    requires |pat| > 0 && pat[0] !in s
    ensures ReplaceAll(s, pat, rep) == s
  {
    ReplaceSkip(s, "", pat, rep);
    assert s + "" == s;
  }

  /** A prefix that cannot start an occurrence is copied unchanged. */
  lemma {:induction false} ReplaceSkip(a: string, t: string, pat: string, rep: string)
    requires |pat| > 0 && pat[0] !in a
    ensures ReplaceAll(a + t, pat, rep) == a + ReplaceAll(t, pat, rep)
    decreases |a|
  {
    if |a| == 0 {
      assert a + t == t;
    } else {
      var s := a + t;
      assert s[0] == a[0] && s[1..] == a[1..] + t;
      ReplaceSkip(a[1..], t, pat, rep);
      ReplaceOther(s, pat, rep);
      assert a == [a[0]] + a[1..];
      assert [a[0]] + (a[1..] + ReplaceAll(t, pat, rep)) == a + ReplaceAll(t, pat, rep);
    }
  }

  /** A string whose first character cannot start an occurrence keeps
      that character. */
  lemma ReplaceOther(s: string, pat: string, rep: string)
    requires |pat| > 0 && |s| > 0 && s[0] != pat[0]
    ensures ReplaceAll(s, pat, rep) == [s[0]] + ReplaceAll(s[1..], pat, rep)
  {
    if |s| < |pat| {
      assert ReplaceAll(s[1..], pat, rep) == s[1..];
      assert s == [s[0]] + s[1..];
    } else {
      assert s[..|pat|][0] == s[0];
    }
  }

  /** An occurrence at the front is replaced. */
  lemma ReplaceHere(pat: string, t: string, rep: string)
    requires |pat| > 0
    ensures ReplaceAll(pat + t, pat, rep) == rep + ReplaceAll(t, pat, rep)
  {
    var s := pat + t;
    assert s[..|pat|] == pat;
    assert s[|pat|..] == t;
  }

  /** The first occurrence is replaced: when `pat` does not occur in `a`
      nor start inside `a` and run into the `pat` that follows, the text
      before that `pat` is copied, the `pat` becomes `rep`, and replacement
      continues after it. */
  lemma {:induction false} ReplaceFirst(a: string, pat: string, b: string, rep: string)
    requires |pat| > 0 && !Contains(a + pat[..|pat| - 1], pat)
    ensures ReplaceAll(a + pat + b, pat, rep) == a + rep + ReplaceAll(b, pat, rep)
    decreases |a|
  {
    if |a| == 0 {
      assert a + pat + b == pat + b;
      ReplaceHere(pat, b, rep);
      assert a + rep + ReplaceAll(b, pat, rep) == rep + ReplaceAll(b, pat, rep);
    } else {
      NoMatchAtFront(a, pat, b);
      ReplaceFirst(a[1..], pat, b, rep);
      ReplaceFirstStep(a, pat, b, rep);
    }
  }

  /** The inductive step of `ReplaceFirst`: the first character of `a` is
      copied in front of the result for `a[1..]`. */
  lemma ReplaceFirstStep(a: string, pat: string, b: string, rep: string)
    requires |pat| > 0 && |a| > 0
    requires |a + pat + b| >= |pat| && (a + pat + b)[..|pat|] != pat
    requires ReplaceAll(a[1..] + pat + b, pat, rep) == a[1..] + rep + ReplaceAll(b, pat, rep)
    ensures ReplaceAll(a + pat + b, pat, rep) == a + rep + ReplaceAll(b, pat, rep)
  {
    var t := a[1..] + pat + b;
    var r := ReplaceAll(b, pat, rep);
    assert a + pat + b == [a[0]] + t;
    ReplaceCons(a[0], t, pat, rep);
    assert [a[0]] + (a[1..] + rep + r) == a + rep + r;
  }

  /** Under the hypothesis of `ReplaceFirst`, `pat` does not start at the
      front of `a + pat + b` when `a` is not empty, and the hypothesis
      carries over to `a[1..]`. */
  lemma NoMatchAtFront(a: string, pat: string, b: string)
    requires |pat| > 0 && |a| > 0 && !Contains(a + pat[..|pat| - 1], pat)
    ensures |a + pat + b| >= |pat| && (a + pat + b)[..|pat|] != pat
    ensures !Contains(a[1..] + pat[..|pat| - 1], pat)
  {
    var s := a + pat + b;
    var x := a + pat[..|pat| - 1];
    assert s[..|pat|] == x[..|pat|];
    assert !StartsWith(x, pat);
    assert x[1..] == a[1..] + pat[..|pat| - 1];
  }

  /** A string that does not start with `pat` keeps its first character. */
  lemma ReplaceCons(ch: char, t: string, pat: string, rep: string)
    requires |pat| > 0 && |[ch] + t| >= |pat| && ([ch] + t)[..|pat|] != pat
    ensures ReplaceAll([ch] + t, pat, rep) == [ch] + ReplaceAll(t, pat, rep)
  {
    assert ([ch] + t)[1..] == t;
  }
}
