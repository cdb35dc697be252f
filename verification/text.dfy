/** String helpers: decimal rendering of integers (PHP string interpolation and
    JavaScript template literals), substring search and ASCII case folding
    (the SQL `LIKE '%term%'` test). */
module Text {

  function DigitChar(d: nat): (c: char)
    requires d < 10
    ensures '0' <= c <= '9'
  {
    "0123456789"[d]
  }

  function DigitValue(c: char): nat
  {
    if '0' <= c <= '9' then (c - '0') as nat else 0
  }

  predicate AllDigits(s: string)
  {
    forall i :: 0 <= i < |s| ==> '0' <= s[i] <= '9'
  }

  /** Decimal rendering of a natural number, most significant digit first. */
  function NatToString(n: nat): (r: string)
    ensures |r| >= 1 && AllDigits(r)
    ensures n < 10 <==> |r| == 1
    decreases n
  {
    if n < 10 then [DigitChar(n)] else NatToString(n / 10) + [DigitChar(n % 10)]
  }

  /** The number a string of decimal digits denotes. */
  function ParseDigits(s: string): nat
  {
    if |s| == 0 then 0 else ParseDigits(s[..|s| - 1]) * 10 + DigitValue(s[|s| - 1])
  }

  /** Rendering and parsing are inverse: distinct numbers render differently. */
  lemma {:induction false} NatToStringRoundTrip(n: nat)
    ensures ParseDigits(NatToString(n)) == n
    decreases n
  {
    var r := NatToString(n);
    if n >= 10 {
      assert r[..|r| - 1] == NatToString(n / 10);
      assert r[|r| - 1] == DigitChar(n % 10);
      DigitRoundTrip(n % 10);
      NatToStringRoundTrip(n / 10);
    } else {
      assert r[..0] == [];
      DigitRoundTrip(n);
    }
  }

  /** A digit's character reads back as the digit. */
  lemma DigitRoundTrip(d: nat)
    requires d < 10
    ensures DigitValue(DigitChar(d)) == d
  {
  }

  /** Decimal rendering of an integer, with a leading '-' when negative. */
  function IntToString(i: int): (r: string)
    ensures |r| >= 1
    ensures i < 0 <==> r[0] == '-'
  {
    if i < 0 then "-" + NatToString(-i) else NatToString(i)
  }

  predicate IsPrefix(p: string, s: string)
  {
    |p| <= |s| && s[..|p|] == p
  }

  /** `sub` occurs somewhere in `s` as a contiguous run. */
  predicate Contains(s: string, sub: string)
    decreases |s|
  {
    IsPrefix(sub, s) || (|s| > 0 && Contains(s[1..], sub))
  }

  lemma {:induction false} ContainsAt(s: string, sub: string, i: nat)
    requires i + |sub| <= |s| && s[i..i + |sub|] == sub
    ensures Contains(s, sub)
    decreases i
  {
    if i > 0 {
      assert s[1..][i - 1..i - 1 + |sub|] == s[i..i + |sub|];
      ContainsAt(s[1..], sub, i - 1);
    }
  }

  /** The middle piece of a concatenation occurs in it. */
  lemma ContainsMiddle(a: string, b: string, c: string)
    ensures Contains(a + b + c, b)
  {
    var s := a + b + c;
    assert s[|a|..|a| + |b|] == b;
    ContainsAt(s, b, |a|);
  }

  function LowerChar(c: char): char
  {
    if 'A' <= c <= 'Z' then (c - 'A' + 'a') as char else c
  }

  function Lower(s: string): (r: string)
    ensures |r| == |s|
    ensures forall i :: 0 <= i < |s| ==> r[i] == LowerChar(s[i])
  {
    seq(|s|, i requires 0 <= i < |s| => LowerChar(s[i]))
  }

  /** `value LIKE '%term%'` under SQLite's default, ASCII case-insensitive collation. */
  predicate Like(value: string, term: string)
  {
    Contains(Lower(value), Lower(term))
  }

  /** Every value matches the empty search term (`LIKE '%%'`). */
  lemma LikeEmpty(value: string)
    ensures Like(value, "")
  {
    assert IsPrefix(Lower(""), Lower(value));
  }

  /** `s` without its leading characters from `ws`. */
  function StripLeft(s: string, ws: set<char>): string
    decreases |s|
  {
    if |s| > 0 && s[0] in ws then StripLeft(s[1..], ws) else s
  }

  /** `s` without its trailing characters from `ws`. */
  function StripRight(s: string, ws: set<char>): string
    decreases |s|
  {
    if |s| > 0 && s[|s| - 1] in ws then StripRight(s[..|s| - 1], ws) else s
  }

  /** PHP's `trim($s, $ws)`: `s` without the characters from `ws` at either
      end. */
  function Strip(s: string, ws: set<char>): string
  {
    StripRight(StripLeft(s, ws), ws)
  }

  /** Stripping the front leaves a suffix, drops only characters from `ws`,
      and stops at the first other character. */
  lemma {:induction false} StripLeftSuffix(s: string, ws: set<char>)
    ensures var r := StripLeft(s, ws);
      && |r| <= |s| && r == s[|s| - |r|..]
      && (forall i :: 0 <= i < |s| - |r| ==> s[i] in ws)
      && (|r| > 0 ==> r[0] !in ws)
    decreases |s|
  {
    if |s| > 0 && s[0] in ws {
      StripLeftSuffix(s[1..], ws);
    }
  }

  /** Stripping the back leaves a prefix, drops only characters from `ws`,
      and stops at the last other character. */
  lemma {:induction false} StripRightPrefix(s: string, ws: set<char>)
    ensures var r := StripRight(s, ws);
      && |r| <= |s| && r == s[..|r|]
      && (forall i :: |r| <= i < |s| ==> s[i] in ws)
      && (|r| > 0 ==> r[|r| - 1] !in ws)
    decreases |s|
  {
    if |s| > 0 && s[|s| - 1] in ws {
      StripRightPrefix(s[..|s| - 1], ws);
    }
  }

  /** Trimming leaves nothing exactly when every character is in `ws`, and
      otherwise leaves a string that starts and ends outside `ws`. */
  lemma StripMeaning(s: string, ws: set<char>)
    ensures var r := Strip(s, ws);
      && (|r| == 0 <==> forall i :: 0 <= i < |s| ==> s[i] in ws)
      && (|r| > 0 ==> r[0] !in ws && r[|r| - 1] !in ws)
  {
    var l := StripLeft(s, ws);
    StripLeftSuffix(s, ws);
    StripRightPrefix(l, ws);
  }

  lemma {:induction false} StripLeftPadding(p: string, x: string, ws: set<char>)
    requires forall i :: 0 <= i < |p| ==> p[i] in ws
    ensures StripLeft(p + x, ws) == StripLeft(x, ws)
    decreases |p|
  {
    if |p| > 0 {
      assert (p + x)[1..] == p[1..] + x;
      StripLeftPadding(p[1..], x, ws);
    } else {
      assert p + x == x;
    }
  }

  lemma {:induction false} StripRightPadding(x: string, q: string, ws: set<char>)
    requires forall i :: 0 <= i < |q| ==> q[i] in ws
    ensures StripRight(x + q, ws) == StripRight(x, ws)
    decreases |q|
  {
    if |q| > 0 {
      assert (x + q)[..|x + q| - 1] == x + q[..|q| - 1];
      StripRightPadding(x, q[..|q| - 1], ws);
    } else {
      assert x + q == x;
    }
  }

  /** Trimming undoes padding: a word that neither starts nor ends with a
      character from `ws`, padded on both sides with such characters, trims
      back to the word. */
  lemma StripPadding(p: string, w: string, q: string, ws: set<char>)
    requires forall i :: 0 <= i < |p| ==> p[i] in ws
    requires forall i :: 0 <= i < |q| ==> q[i] in ws
    requires |w| > 0 && w[0] !in ws && w[|w| - 1] !in ws
    ensures Strip(p + w + q, ws) == w
  {
    assert p + w + q == p + (w + q);
    StripLeftPadding(p, w + q, ws);
    StripRightPadding(w, q, ws);
  }
}
