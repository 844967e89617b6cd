/**
 * String helpers that the feed builder takes from Python's `str`:
 * `split` on one character, `sep.join(parts)`, `s.split(pat)[0]`,
 * `str(n)` for integers and, as their partner, parsing a decimal back.
 */
module Text {
  import opened Wrappers

  // ---------------------------------------------------------------------
  // split / join

  /** `s.split(c)` for a one-character separator. */
  function Split(s: string, c: char): (parts: seq<string>)
    ensures |parts| >= 1
    ensures forall i :: 0 <= i < |parts| ==> c !in parts[i]
  {
    if s == [] then [""]
    else
      var rest := Split(s[1..], c);
      if s[0] == c then [""] + rest
      else [[s[0]] + rest[0]] + rest[1..]
  }

  /** `sep.join(parts)`. */
  function Join(sep: string, parts: seq<string>): string
  {
    if parts == [] then ""
    else if |parts| == 1 then parts[0]
    else parts[0] + sep + Join(sep, parts[1..])
  }

  /** Every occurrence of the character `c` in `s` replaced by `r`. */
  function Replace(s: string, c: char, r: string): string
  {
    if s == [] then ""
    else (if s[0] == c then r else [s[0]]) + Replace(s[1..], c, r)
  }

  lemma JoinGrowHead(sep: string, a: string, b: string, rest: seq<string>)
    ensures Join(sep, [a + b] + rest) == a + Join(sep, [b] + rest)
  {
    if rest != [] {
      assert ([a + b] + rest)[1..] == rest;
      assert ([b] + rest)[1..] == rest;
    }
  }

  /** Splitting on `c` and joining with `r` replaces each `c` by `r`. */
  lemma {:induction false} JoinSplitIsReplace(s: string, c: char, r: string)
    ensures Join(r, Split(s, c)) == Replace(s, c, r)
  {
    if s != [] {
      var rest := Split(s[1..], c);
      JoinSplitIsReplace(s[1..], c, r);
      if s[0] == c {
        assert ([""] + rest)[1..] == rest;
      } else {
        JoinGrowHead(r, [s[0]], rest[0], rest[1..]);
        assert [rest[0]] + rest[1..] == rest;
      }
    }
  }

  lemma {:induction false} ReplaceBySelf(s: string, c: char)
    ensures Replace(s, c, [c]) == s
  {
    if s != [] {
      ReplaceBySelf(s[1..], c);
      assert s == [s[0]] + s[1..];
    }
  }

  lemma {:induction false} ReplacePrefix(a: string, b: string, c: char, r: string)
    requires c !in a
    ensures Replace(a + b, c, r) == a + Replace(b, c, r)
  {
    if a != [] {
      var ab := a + b;
      assert ab[0] == a[0] && ab[1..] == a[1..] + b;
      ReplacePrefix(a[1..], b, c, r);
      calc {
        Replace(ab, c, r);
        [a[0]] + Replace(ab[1..], c, r);
        [a[0]] + (a[1..] + Replace(b, c, r));
        ([a[0]] + a[1..]) + Replace(b, c, r);
        { assert [a[0]] + a[1..] == a; }
        a + Replace(b, c, r);
      }
    } else {
      assert a + b == b;
    }
  }

  /** Text with a single line break `c` has it replaced by `r`. */
  lemma ReplaceOneBreak(a: string, b: string, c: char, r: string)
    requires c !in a && c !in b
    ensures Replace(a + [c] + b, c, r) == a + r + b
  {
    ReplacePrefix(a, [c] + b, c, r);
    ReplacePrefix(b, [], c, r);
    assert b + [] == b;
    assert ([c] + b)[1..] == b;
    assert a + [c] + b == a + ([c] + b);
  }

  /** Joining the pieces with the separator character restores the string. */
  lemma SplitJoinRoundTrip(s: string, c: char)
    ensures Join([c], Split(s, c)) == s
  {
    JoinSplitIsReplace(s, c, [c]);
    ReplaceBySelf(s, c);
  }

  // ---------------------------------------------------------------------
  // text before the first occurrence of a pattern: `s.split(pat)[0]`

  /** `pat` occurs in `s` starting at index `i`. */
  predicate OccursAt(s: string, pat: string, i: int)
  {
    0 <= i && i + |pat| <= |s| && s[i..i + |pat|] == pat
  }

  predicate Contains(s: string, pat: string)
  {
    exists i :: 0 <= i <= |s| && OccursAt(s, pat, i)
  }

  /** `s.split(pat)[0]`: the longest prefix of `s` before the first occurrence of `pat`. */
  function BeforeFirst(s: string, pat: string): (r: string)
    requires pat != []
    ensures |r| <= |s| && r == s[..|r|]
    ensures forall i :: 0 <= i < |r| ==> !OccursAt(s, pat, i)
    ensures |r| < |s| ==> OccursAt(s, pat, |r|)
  {
    if |s| < |pat| then s
    else if s[..|pat|] == pat then ""
    else
      var r := BeforeFirst(s[1..], pat);
      assert !OccursAt(s, pat, 0);
      forall i | 1 <= i <= |s|
        ensures OccursAt(s, pat, i) <==> OccursAt(s[1..], pat, i - 1)
      {
        if i + |pat| <= |s| {
          assert s[1..][i - 1..i - 1 + |pat|] == s[i..i + |pat|];
        }
      }
      [s[0]] + r
  }

  /** The first occurrence of `pat` determines `s.split(pat)[0]`. */
  lemma BeforeFirstAt(s: string, pat: string, k: int)
    requires pat != []
    requires OccursAt(s, pat, k)
    requires forall i :: 0 <= i < k ==> !OccursAt(s, pat, i)
    ensures BeforeFirst(s, pat) == s[..k]
  {
    var r := BeforeFirst(s, pat);
    assert |r| <= k;
    assert |r| >= k;
  }

  // ---------------------------------------------------------------------
  // a list comprehension `[f(x) for x in xs]`

  function Map<X, Y>(f: X -> Y, xs: seq<X>): (ys: seq<Y>)
    ensures |ys| == |xs|
  {
    if xs == [] then []
    else Map(f, xs[..|xs| - 1]) + [f(xs[|xs| - 1])]
  }

  /** `Map` applies `f` to each element, in place. */
  lemma {:induction false} MapAt<X, Y>(f: X -> Y, xs: seq<X>)
    ensures forall i :: 0 <= i < |xs| ==> Map(f, xs)[i] == f(xs[i])
  {
    if xs != [] {
      var n := |xs| - 1;
      MapAt(f, xs[..n]);
      assert forall i :: 0 <= i < n ==> xs[..n][i] == xs[i];
    }
  }

  lemma AppendOneAssoc<T>(a: seq<T>, b: seq<T>, x: T)
    ensures (a + b) + [x] == a + (b + [x])
  {
  }

  /** The parts of `a + b + [x] + [y]`. */
  lemma FramedParts<T>(a: seq<T>, b: seq<T>, x: T, y: T)
    ensures var s := a + b + [x] + [y];
      |s| == |a| + |b| + 2 && s[..|a|] == a && s[|a|..|a| + |b|] == b &&
      s[|a| + |b|] == x && s[|a| + |b| + 1] == y
  {
    var s := a + b + [x] + [y];
    assert s[..|a|] == a;
    assert s[|a|..|a| + |b|] == b;
  }

  lemma MapAppendOne<X, Y>(f: X -> Y, xs: seq<X>, x: X)
    ensures Map(f, xs + [x]) == Map(f, xs) + [f(x)]
  {
    assert (xs + [x])[..|xs|] == xs;
  }

  lemma MapSnoc<X, Y>(f: X -> Y, xs: seq<X>, i: nat)
    requires i < |xs|
    ensures Map(f, xs[..i + 1]) == Map(f, xs[..i]) + [f(xs[i])]
  {
    assert xs[..i + 1][..i] == xs[..i];
  }

  // ---------------------------------------------------------------------
  // decimal integers: Python `str(n)` and its inverse

  predicate IsDigit(c: char) { '0' <= c <= '9' }

  predicate IsDigits(s: string)
  {
    forall i :: 0 <= i < |s| ==> IsDigit(s[i])
  }

  function DigitChar(d: nat): (c: char)
    requires d < 10
    ensures IsDigit(c) && DigitValue(c) == d
  {
    ('0' as int + d) as char
  }

  function DigitValue(c: char): nat
    requires IsDigit(c)
  {
    (c as int - '0' as int) as nat
  }

  /** The value of a string of ASCII digits, as Python's `int()` reads it. */
  function DigitsValue(s: string): nat
    requires IsDigits(s)
  {
    if s == [] then 0
    else DigitsValue(s[..|s| - 1]) * 10 + DigitValue(s[|s| - 1])
  }

  /** `str(n)` for a non-negative integer: its shortest decimal spelling. */
  function NatToString(n: nat): (s: string)
    ensures |s| >= 1 && IsDigits(s)
    ensures |s| > 1 ==> s[0] != '0'
  {
    if n < 10 then [DigitChar(n)]
    else NatToString(n / 10) + [DigitChar(n % 10)]
  }

  lemma {:induction false} NatToStringRoundTrip(n: nat)
    ensures DigitsValue(NatToString(n)) == n
  {
    var s := NatToString(n);
    if n < 10 {
      assert s[..0] == [];
    } else {
      NatToStringRoundTrip(n / 10);
      assert s[..|s| - 1] == NatToString(n / 10);
    }
  }

  /** `str(i)` for any integer. */
  function IntToString(i: int): (s: string)
    ensures '_' !in s
  {
    if i < 0 then "-" + NatToString(-i) else NatToString(i)
  }

  /** Reads back what `IntToString` writes: an optional minus sign and digits. */
  function ParseInt(s: string): Option<int>
  {
    if |s| > 1 && s[0] == '-' && IsDigits(s[1..]) then Some(0 - DigitsValue(s[1..]) as int)
    else if |s| >= 1 && IsDigits(s) then Some(DigitsValue(s))
    else None
  }

  lemma ParseIntDigits(t: string)
    requires |t| >= 1 && IsDigits(t)
    ensures ParseInt(t) == Some(DigitsValue(t) as int)
  {
    assert IsDigit(t[0]);
  }

  lemma ParseIntNegative(t: string)
    requires |t| >= 1 && IsDigits(t)
    ensures ParseInt("-" + t) == Some(0 - DigitsValue(t) as int)
  {
    assert ("-" + t)[1..] == t;
  }

  lemma IntToStringRoundTrip(i: int)
    ensures ParseInt(IntToString(i)) == Some(i)
  {
    if i < 0 {
      var t := NatToString(-i);
      assert IntToString(i) == "-" + t;
      ParseIntNegative(t);
      NatToStringRoundTrip(-i);
    } else {
      var t := NatToString(i);
      assert IntToString(i) == t;
      ParseIntDigits(t);
      NatToStringRoundTrip(i);
    }
  }

  /** Distinct integers are written differently. */
  lemma IntToStringInjective(i: int, j: int)
    requires IntToString(i) == IntToString(j)
    ensures i == j
  {
    IntToStringRoundTrip(i);
    IntToStringRoundTrip(j);
  }

  // ---------------------------------------------------------------------
  // first occurrence of a character

  /** The index of the first `c` in `s`, or `|s|` when there is none. */
  function IndexOf(s: string, c: char): (k: nat)
    ensures k <= |s|
    ensures c !in s[..k]
    ensures k < |s| ==> s[k] == c
  {
    if s == [] then 0
    else if s[0] == c then 0
    else
      var k := IndexOf(s[1..], c);
      assert s[..k + 1] == [s[0]] + s[1..][..k];
      1 + k
  }
}
