/** The string operations of the .NET library that the rewriting pass relies on:
    substring search (exact and ASCII case-blind), prefix and suffix tests, splitting on
    a literal separator, joining with a separator and decimal formatting. Every
    comparison is character by character; .NET runs `EndsWith` and `IndexOf` on strings
    with the current culture, which agrees with this only on text without ignorable or
    combining characters. */
module Strings {
  import opened Wrappers

  /** ASCII lower-casing of one character. */
  function ToLower(c: char): char
  {
    if 'A' <= c <= 'Z' then (c as int + 32) as char else c
  }

  /** The string with every character lower-cased. */
  function Lower(s: string): (l: string)
    ensures |l| == |s|
  {
    seq(|s|, i requires 0 <= i < |s| => ToLower(s[i]))
  }

  /** `pat` occurs in `s` starting at offset `k`. */
  predicate MatchesAt(s: string, pat: string, k: nat)
  {
    k + |pat| <= |s| && s[k..k + |pat|] == pat
  }

  predicate Contains(s: string, pat: string)
  {
    exists k: nat :: k <= |s| && MatchesAt(s, pat, k)
  }

  predicate StartsWith(s: string, prefix: string)
  {
    |prefix| <= |s| && s[..|prefix|] == prefix
  }

  predicate EndsWith(s: string, suffix: string)
  {
    |suffix| <= |s| && s[|s| - |suffix|..] == suffix
  }

  /** Character-by-character search for the first occurrence of `pat` at or after
      offset `k`. */
  function IndexOfFrom(s: string, pat: string, k: nat): (r: Option<nat>)
    requires k <= |s|
    ensures r.Some? ==> k <= r.value && MatchesAt(s, pat, r.value)
    ensures r.Some? ==> forall j: nat :: k <= j < r.value ==> !MatchesAt(s, pat, j)
    ensures r.None? ==> forall j: nat :: k <= j ==> !MatchesAt(s, pat, j)
    decreases |s| - k
  {
    if MatchesAt(s, pat, k) then Some(k)
    else if k == |s| then None
    else IndexOfFrom(s, pat, k + 1)
  }

  /** `String.IndexOf`, compared character by character: the offset of the first
      occurrence of `pat`, if any. */
  function IndexOf(s: string, pat: string): (r: Option<nat>)
    ensures r.Some? <==> Contains(s, pat)
    ensures r.Some? ==> MatchesAt(s, pat, r.value)
    ensures r.Some? ==> forall j: nat :: j < r.value ==> !MatchesAt(s, pat, j)
  {
    IndexOfFrom(s, pat, 0)
  }

  /** Case-insensitive search: both sides are compared lower-cased. */
  function IndexOfIgnoreCase(s: string, pat: string): (r: Option<nat>)
    ensures r.Some? <==> Contains(Lower(s), Lower(pat))
    ensures r.Some? ==> MatchesAt(Lower(s), Lower(pat), r.value)
    ensures r.Some? ==> forall j: nat :: j < r.value ==> !MatchesAt(Lower(s), Lower(pat), j)
  {
    IndexOf(Lower(s), Lower(pat))
  }

  /** Lower-casing commutes with taking a prefix. */
  lemma LowerPrefix(s: string, n: nat)
    ensures n <= |s| ==> Lower(s)[..n] == Lower(s[..n])
  {
  }

  predicate StartsWithIgnoreCase(s: string, prefix: string)
  {
    StartsWith(Lower(s), Lower(prefix))
  }

  /** `String.Insert`: `t` placed in front of offset `k`. */
  function Insert(s: string, k: nat, t: string): string
    requires k <= |s|
  {
    s[..k] + t + s[k..]
  }

  /** `count` copies of `c`, the text a StringBuilder gets from `count` appends of `c`. */
  function Repeat(c: char, count: nat): string
  {
    seq(count, _ => c)
  }

  /** Splitting on every non-overlapping occurrence of `sep`, left to right, keeping
      empty pieces: `String.Split` on one character and `Regex.Split` on a pattern
      without metacharacters. */
  function Split(s: string, sep: string): (parts: seq<string>)
    requires |sep| > 0
    ensures |parts| >= 1
    decreases |s|
  {
    match IndexOf(s, sep)
    case None => [s]
    case Some(k) => [s[..k]] + Split(s[k + |sep|..], sep)
  }

  /** `String.Join`. */
  function Join(parts: seq<string>, sep: string): string
  {
    if |parts| == 0 then ""
    else if |parts| == 1 then parts[0]
    else parts[0] + sep + Join(parts[1..], sep)
  }

  /** `sep` has no proper suffix that is also a prefix, so two occurrences of it never
      overlap and no occurrence can straddle a separator placed by `Join`. */
  predicate OverlapFree(sep: string)
  {
    forall d :: 0 < d < |sep| ==> sep[d..] != sep[..|sep| - d]
  }

  function DigitChar(d: nat): char
    requires d < 10
  {
    ('0' as int + d) as char
  }

  /** `Int32.ToString()` of a non-negative value: its decimal digits, no leading zero. */
  function NatToString(n: nat): (s: string)
    ensures |s| >= 1
    ensures forall i :: 0 <= i < |s| ==> '0' <= s[i] <= '9'
    ensures n >= 10 <==> |s| >= 2
    decreases n
  {
    if n < 10 then [DigitChar(n)] else NatToString(n / 10) + [DigitChar(n % 10)]
  }

  lemma PrefixBeforeFirstMatch(s: string, sep: string, k: nat)
    requires |sep| > 0 && k <= |s|
    requires forall j: nat :: j < k ==> !MatchesAt(s, sep, j)
    ensures !Contains(s[..k], sep)
  {
    forall j: nat ensures !MatchesAt(s[..k], sep, j) {
      if j + |sep| <= k {
        assert s[..k][j..j + |sep|] == s[j..j + |sep|];
        assert !MatchesAt(s, sep, j);
      }
    }
  }

  /** A text splits into a single piece exactly when it lacks the separator, and that
      piece is the whole text. */
  lemma SplitSingle(s: string, sep: string)
    requires |sep| > 0
    ensures |Split(s, sep)| == 1 <==> !Contains(s, sep)
    ensures |Split(s, sep)| == 1 ==> Split(s, sep)[0] == s
  {
  }

  /** No piece of a split contains the separator. */
  lemma {:induction false} SplitPiecesLackSeparator(s: string, sep: string)
    requires |sep| > 0
    ensures forall i :: 0 <= i < |Split(s, sep)| ==> !Contains(Split(s, sep)[i], sep)
    decreases |s|
  {
    var r := IndexOf(s, sep);
    if r.Some? {
      var k := r.value;
      var rest := s[k + |sep|..];
      PrefixBeforeFirstMatch(s, sep, k);
      SplitPiecesLackSeparator(rest, sep);
      assert Split(s, sep) == [s[..k]] + Split(rest, sep);
    } else {
      assert Split(s, sep) == [s];
    }
  }

  /** Joining the pieces of a split gives back the text: splitting loses nothing. */
  lemma {:induction false} JoinSplit(s: string, sep: string)
    requires |sep| > 0
    ensures Join(Split(s, sep), sep) == s
    decreases |s|
  {
    var r := IndexOf(s, sep);
    if r.Some? {
      var k := r.value;
      var rest := s[k + |sep|..];
      var tail := Split(rest, sep);
      var parts := Split(s, sep);
      assert parts == [s[..k]] + tail;
      assert parts[1..] == tail;
      JoinSplit(rest, sep);
      assert Join(parts, sep) == s[..k] + sep + Join(tail, sep);
      assert s == s[..k] + sep + rest by {
        assert s[k..k + |sep|] == sep;
      }
    }
  }

  /** When `p` does not contain `sep`, the first occurrence of `sep` in `p + sep + rest`
      is the one just after `p`. */
  lemma FirstMatchAfterPiece(p: string, sep: string, rest: string)
    requires |sep| > 0 && OverlapFree(sep)
    requires !Contains(p, sep)
    ensures IndexOf(p + sep + rest, sep) == Some(|p|)
  {
    var s := p + sep + rest;
    assert s[|p|..|p| + |sep|] == sep;
    assert MatchesAt(s, sep, |p|);
    forall j: nat | j < |p| ensures !MatchesAt(s, sep, j) {
      if j + |sep| <= |p| {
        assert s[j..j + |sep|] == p[j..j + |sep|];
        assert !MatchesAt(p, sep, j);
      } else if j + |sep| <= |s| {
        var d := |p| - j;
        var w := s[j..j + |sep|];
        assert w[d..] == sep[..|sep| - d];
        assert sep[d..] != sep[..|sep| - d];
      }
    }
  }

  /** Splitting the join of separator-free pieces gives back the pieces. */
  lemma {:induction false} SplitJoin(parts: seq<string>, sep: string)
    requires |sep| > 0 && OverlapFree(sep)
    requires |parts| >= 1
    requires forall i :: 0 <= i < |parts| ==> !Contains(parts[i], sep)
    ensures Split(Join(parts, sep), sep) == parts
    decreases |parts|
  {
    if |parts| > 1 {
      var rest := Join(parts[1..], sep);
      var s := parts[0] + sep + rest;
      assert Join(parts, sep) == s;
      FirstMatchAfterPiece(parts[0], sep, rest);
      assert s[..|parts[0]|] == parts[0];
      assert s[|parts[0]| + |sep|..] == rest;
      assert Split(s, sep) == [parts[0]] + Split(rest, sep);
      SplitJoin(parts[1..], sep);
      assert parts == [parts[0]] + parts[1..];
    }
  }

  /** A text lacking one character of `pat` cannot contain `pat`. */
  lemma MissingCharNotContained(s: string, pat: string, i: nat)
    requires i < |pat| && pat[i] !in s
    ensures !Contains(s, pat)
  {
    forall k: nat ensures !MatchesAt(s, pat, k) {
      if k + |pat| <= |s| {
        assert s[k..k + |pat|][i] == s[k + i];
      }
    }
  }

  /** A pattern found in either half is found in the concatenation. */
  lemma ContainsInConcat(a: string, b: string, pat: string)
    ensures Contains(a, pat) || Contains(b, pat) ==> Contains(a + b, pat)
  {
    if Contains(a, pat) {
      var k: nat :| k <= |a| && MatchesAt(a, pat, k);
      assert (a + b)[k..k + |pat|] == a[k..k + |pat|];
      assert MatchesAt(a + b, pat, k);
    } else if Contains(b, pat) {
      var k: nat :| k <= |b| && MatchesAt(b, pat, k);
      assert (a + b)[|a| + k..|a| + k + |pat|] == b[k..k + |pat|];
      assert MatchesAt(a + b, pat, |a| + k);
    }
  }

  /** A pattern found in one of the parts is found in their join. */
  lemma {:induction false} ContainsInJoin(parts: seq<string>, sep: string, pat: string, i: nat)
    requires i < |parts| && Contains(parts[i], pat)
    ensures Contains(Join(parts, sep), pat)
    decreases |parts|
  {
    if |parts| > 1 {
      var rest := Join(parts[1..], sep);
      assert Join(parts, sep) == (parts[0] + sep) + rest;
      if i == 0 {
        ContainsInConcat(parts[0], sep, pat);
      } else {
        ContainsInJoin(parts[1..], sep, pat, i - 1);
      }
      ContainsInConcat(parts[0] + sep, rest, pat);
    }
  }

  /** The pieces of a text that lacks `pat` lack it too. */
  lemma SplitPiecesLackAbsent(s: string, sep: string, pat: string)
    requires |sep| > 0 && !Contains(s, pat)
    ensures forall i :: 0 <= i < |Split(s, sep)| ==> !Contains(Split(s, sep)[i], pat)
  {
    var parts := Split(s, sep);
    JoinSplit(s, sep);
    forall i | 0 <= i < |parts| ensures !Contains(parts[i], pat) {
      if Contains(parts[i], pat) {
        ContainsInJoin(parts, sep, pat, i);
      }
    }
  }

  /** A match inside a slice is a match in the whole text, shifted by the slice's start. */
  lemma MatchInSlice(s: string, pat: string, f: nat, w: nat, k: nat)
    requires f <= w <= |s| && MatchesAt(s[f..w], pat, k)
    ensures MatchesAt(s, pat, f + k)
  {
    var piece := s[f..w][k..k + |pat|];
    assert forall i :: 0 <= i < |pat| ==> piece[i] == s[f + k + i];
    assert s[f + k..f + k + |pat|] == piece;
  }

  /** A text containing `pat + more` contains `pat`. */
  lemma ContainsPrefixOfPattern(s: string, pat: string, more: string)
    ensures Contains(s, pat + more) ==> Contains(s, pat)
  {
    if Contains(s, pat + more) {
      var k: nat :| k <= |s| && MatchesAt(s, pat + more, k);
      assert s[k..k + |pat|] == (pat + more)[..|pat|];
      assert MatchesAt(s, pat, k);
    }
  }

  /** A one-character pattern occurs exactly when the character does. */
  lemma ContainsChar(s: string, c: char)
    ensures Contains(s, [c]) <==> c in s
  {
    if c in s {
      var k :| 0 <= k < |s| && s[k] == c;
      assert s[k..k + 1] == [c];
      assert MatchesAt(s, [c], k);
    } else {
      MissingCharNotContained(s, [c], 0);
    }
  }

  /** Joining pieces whose characters grow by `extra[i]` grows the joined text by
      all of `extra`. */
  lemma {:induction false} JoinMultiset(a: seq<string>, b: seq<string>, sep: string, extra: seq<multiset<char>>)
    requires |a| == |b| == |extra|
    requires forall i :: 0 <= i < |a| ==> multiset(b[i]) == multiset(a[i]) + extra[i]
    ensures multiset(Join(b, sep)) == multiset(Join(a, sep)) + SumMultisets(extra)
    decreases |a|
  {
    if |a| > 1 {
      JoinMultiset(a[1..], b[1..], sep, extra[1..]);
    }
  }

  function SumMultisets(ms: seq<multiset<char>>): multiset<char>
  {
    if |ms| == 0 then multiset{} else ms[0] + SumMultisets(ms[1..])
  }

  /** Equal decimal texts denote equal numbers. */
  lemma {:induction false} NatToStringInjective(m: nat, n: nat)
    ensures NatToString(m) == NatToString(n) <==> m == n
    decreases m
  {
    if m >= 10 && n >= 10 {
      var a, b := NatToString(m / 10), NatToString(n / 10);
      var x, y := DigitChar(m % 10), DigitChar(n % 10);
      NatToStringInjective(m / 10, n / 10);
      if a + [x] == b + [y] {
        assert a == (a + [x])[..|a|];
        assert b == (b + [y])[..|b|];
        assert x == (a + [x])[|a|];
      }
    }
  }

  /** Inserting a character that `pat` lacks cannot create an occurrence of `pat`. */
  lemma InsertKeepsAbsent(s: string, k: nat, c: char, pat: string)
    requires k <= |s| && c !in pat
    requires !Contains(s, pat)
    ensures !Contains(Insert(s, k, [c]), pat)
  {
    var t := Insert(s, k, [c]);
    forall j: nat ensures !MatchesAt(t, pat, j) {
      if j + |pat| <= |t| {
        var w := t[j..j + |pat|];
        if j + |pat| <= k {
          assert w == s[j..j + |pat|];
          assert !MatchesAt(s, pat, j);
        } else if j > k {
          assert w == s[j - 1..j - 1 + |pat|];
          assert !MatchesAt(s, pat, j - 1);
        } else {
          assert w[k - j] == c;
        }
      }
    }
  }

  lemma {:induction false} SumMultisetsAppend(xs: seq<multiset<char>>, ys: seq<multiset<char>>)
    ensures SumMultisets(xs + ys) == SumMultisets(xs) + SumMultisets(ys)
    decreases |xs|
  {
    if |xs| > 0 {
      assert (xs + ys)[1..] == xs[1..] + ys;
      SumMultisetsAppend(xs[1..], ys);
    } else {
      assert xs + ys == ys;
    }
  }

  /** `count` single-character multisets add up to the characters of `Repeat`. */
  lemma {:induction false} SumOfRepeat(c: char, count: nat)
    ensures SumMultisets(seq(count, _ => multiset{c})) == multiset(Repeat(c, count))
    decreases count
  {
    if count > 0 {
      assert seq(count, _ => multiset{c})[1..] == seq(count - 1, _ => multiset{c});
      assert Repeat(c, count) == [c] + Repeat(c, count - 1);
      SumOfRepeat(c, count - 1);
    }
  }

  /** `Repeat(c, count)` holds `count` copies of `c` and nothing else. */
  lemma {:induction false} RepeatCount(c: char, count: nat, d: char)
    ensures multiset(Repeat(c, count))[d] == if c == d then count else 0
    decreases count
  {
    if count > 0 {
      assert Repeat(c, count) == [c] + Repeat(c, count - 1);
      RepeatCount(c, count - 1, d);
    }
  }
}
