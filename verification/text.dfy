/**
 * Character classes and string helpers shared by the message-definition
 * parser and the two Rust emitters of frost-codegen: Unicode whitespace as
 * Rust's `char::is_whitespace` and `str::trim` see it, ASCII identifiers and
 * digits, and decimal numerals.
 */
module Text {
  import opened Wrappers

  /** Rust's `char::is_whitespace`: the Unicode White_Space property. */
  predicate IsWhitespace(c: char) {
    || c == ' ' || ('\t' <= c <= '\r')
    || c == '\U{85}' || c == '\U{A0}' || c == '\U{1680}'
    || ('\U{2000}' <= c <= '\U{200A}')
    || c == '\U{2028}' || c == '\U{2029}' || c == '\U{202F}' || c == '\U{205F}' || c == '\U{3000}'
  }

  predicate IsDigit(c: char) {
    '0' <= c <= '9'
  }

  /** The first character of an identifier: an ASCII letter or `_`. */
  predicate IsIdentStart(c: char) {
    ('a' <= c <= 'z') || ('A' <= c <= 'Z') || c == '_'
  }

  /** A later character of an identifier: an ASCII letter, digit or `_`. */
  predicate IsIdentChar(c: char) {
    IsIdentStart(c) || IsDigit(c)
  }

  predicate AllWhitespace(s: string) {
    forall i | 0 <= i < |s| :: IsWhitespace(s[i])
  }

  predicate AllDigits(s: string) {
    forall i | 0 <= i < |s| :: IsDigit(s[i])
  }

  /** A C-style identifier, as chumsky's `text::ident` accepts it. */
  predicate IsIdent(s: string) {
    && s != []
    && IsIdentStart(s[0])
    && forall i | 1 <= i < |s| :: IsIdentChar(s[i])
  }

  /**
   * The first position from `i` on whose character does not satisfy `p`, or
   * the end of `s`. That every character scanned over satisfies `p` is
   * `SpanEndAll`, kept out of this contract so that it is in scope only where
   * it is needed.
   */
  function SpanEnd(s: string, i: nat, p: char -> bool): (j: nat)
    requires i <= |s|
    ensures i <= j <= |s|
    ensures j == |s| || !p(s[j])
    decreases |s| - i
  {
    if i < |s| && p(s[i]) then SpanEnd(s, i + 1, p) else i
  }

  /** Every character `SpanEnd` scans over satisfies `p`. */
  lemma {:induction false} SpanEndAll(s: string, i: nat, p: char -> bool)
    requires i <= |s|
    ensures forall k | i <= k < SpanEnd(s, i, p) :: p(s[k])
    decreases |s| - i
  {
    if i < |s| && p(s[i]) {
      SpanEndAll(s, i + 1, p);
    }
  }

  /** Scanning a text behind a prefix scans the same characters, shifted by the prefix. */
  lemma {:induction false} SpanEndShift(w: string, s: string, i: nat, p: char -> bool)
    requires i <= |s|
    ensures SpanEnd(w + s, |w| + i, p) == |w| + SpanEnd(s, i, p)
    decreases |s| - i
  {
    if i < |s| {
      assert (w + s)[|w| + i] == s[i];
      if p(s[i]) {
        SpanEndShift(w, s, i + 1, p);
      }
    }
  }

  /** Characters that all satisfy `p` are scanned over. */
  lemma {:induction false} SpanEndSkips(s: string, i: nat, j: nat, p: char -> bool)
    requires i <= j <= |s|
    requires forall k | i <= k < j :: p(s[k])
    ensures SpanEnd(s, i, p) == SpanEnd(s, j, p)
    decreases j - i
  {
    if i < j {
      SpanEndSkips(s, i + 1, j, p);
    }
  }

  /** The last position up to `j` before which, back to it, every character satisfies `p`. */
  function SpanBack(s: string, j: nat, p: char -> bool): (i: nat)
    requires j <= |s|
    ensures i <= j
    ensures i == 0 || !p(s[i - 1])
  {
    if j > 0 && p(s[j - 1]) then SpanBack(s, j - 1, p) else j
  }

  /** Every character `SpanBack` scans over satisfies `p`. */
  lemma {:induction false} SpanBackAll(s: string, j: nat, p: char -> bool)
    requires j <= |s|
    ensures forall k | SpanBack(s, j, p) <= k < j :: p(s[k])
  {
    if j > 0 && p(s[j - 1]) {
      SpanBackAll(s, j - 1, p);
    }
  }

  /** Characters that all satisfy `p` are scanned over backwards. */
  lemma {:induction false} SpanBackSkips(s: string, i: nat, j: nat, p: char -> bool)
    requires i <= j <= |s|
    requires forall k | i <= k < j :: p(s[k])
    ensures SpanBack(s, j, p) == SpanBack(s, i, p)
    decreases j - i
  {
    if i < j {
      SpanBackSkips(s, i, j - 1, p);
    }
  }

  /** Rust's `str::trim`: `s` without its leading and trailing whitespace. */
  function Trim(s: string): (r: string)
    ensures r == [] || (!IsWhitespace(r[0]) && !IsWhitespace(r[|r| - 1]))
  {
    var a := SpanEnd(s, 0, IsWhitespace);
    var b := SpanBack(s, |s|, IsWhitespace);
    if b <= a then [] else s[a..b]
  }

  /** Trimming keeps the text between leading and trailing whitespace. */
  lemma TrimBetween(s: string, a: nat, b: nat)
    requires a < b <= |s|
    requires forall k | 0 <= k < a :: IsWhitespace(s[k])
    requires forall k | b <= k < |s| :: IsWhitespace(s[k])
    requires !IsWhitespace(s[a]) && !IsWhitespace(s[b - 1])
    ensures Trim(s) == s[a..b]
  {
    SpanEndSkips(s, 0, a, IsWhitespace);
    SpanBackSkips(s, b, |s|, IsWhitespace);
  }

  /** A text is its leading whitespace, its trimmed self, and its trailing whitespace. */
  lemma TrimSplit(s: string) returns (front: string, back: string)
    ensures AllWhitespace(front) && AllWhitespace(back)
    ensures s == front + Trim(s) + back
  {
    var a := SpanEnd(s, 0, IsWhitespace);
    var b := SpanBack(s, |s|, IsWhitespace);
    front := s[..a];
    assert AllWhitespace(front) by {
      SpanEndAll(s, 0, IsWhitespace);
    }
    if b <= a {
      back := s[a..];
      assert AllWhitespace(back) by {
        SpanBackAll(s, |s|, IsWhitespace);
      }
      ThreeSlices(s, a, a);
    } else {
      back := s[b..];
      assert AllWhitespace(back) by {
        SpanBackAll(s, |s|, IsWhitespace);
      }
      ThreeSlices(s, a, b);
    }
  }

  /** Trimming a text of whitespace leaves nothing. */
  lemma TrimWhitespace(s: string)
    requires AllWhitespace(s)
    ensures Trim(s) == []
  {
    SpanEndSkips(s, 0, |s|, IsWhitespace);
  }

  /** Trimming removes exactly the whitespace around a text whose ends are not whitespace. */
  lemma TrimStrips(front: string, v: string, back: string)
    requires AllWhitespace(front) && AllWhitespace(back)
    requires v == [] || (!IsWhitespace(v[0]) && !IsWhitespace(v[|v| - 1]))
    ensures Trim(front + v + back) == v
  {
    var s := front + v + back;
    var m := |front| + |v|;
    if v == [] {
      assert AllWhitespace(s) by {
        assert forall k | 0 <= k < |s| :: s[k] == if k < |front| then front[k] else back[k - m];
      }
      TrimWhitespace(s);
    } else {
      assert forall k | 0 <= k < |front| :: s[k] == front[k];
      assert forall k | m <= k < |s| :: s[k] == back[k - m];
      assert s[|front|] == v[0];
      assert s[m - 1] == v[|v| - 1];
      TrimBetween(s, |front|, m);
      assert s[|front|..m] == v;
    }
  }

  /** Trimming twice is trimming once. */
  lemma TrimIdempotent(s: string)
    ensures Trim(Trim(s)) == Trim(s)
  {
    var r := Trim(s);
    assert [] + r + [] == r;
    TrimStrips([], r, []);
  }

  /** A decimal numeral holds no character other than digits. */
  lemma DigitsLack(d: string, c: char)
    requires AllDigits(d) && !IsDigit(c)
    ensures c !in d
  {
    assert forall i | 0 <= i < |d| :: d[i] != c;
  }

  /** The value of an ASCII digit. */
  function DigitValue(c: char): nat
    requires IsDigit(c)
  {
    c as int - '0' as int
  }

  /** The digit character of a value below ten. */
  function DigitChar(d: nat): (c: char)
    requires d < 10
    ensures IsDigit(c) && DigitValue(c) == d
  {
    ('0' as int + d) as char
  }

  /** The value of a decimal numeral, read most significant digit first. */
  function DigitsValue(s: string): nat
    requires AllDigits(s)
  {
    if s == [] then 0 else 10 * DigitsValue(s[..|s| - 1]) + DigitValue(s[|s| - 1])
  }

  /** The decimal numeral of `n` without leading zeros, as Rust's `{}` formats an integer. */
  function Decimal(n: nat): (r: string)
    ensures r != [] && AllDigits(r)
    ensures r[0] == '0' ==> n == 0
  {
    if n < 10 then [DigitChar(n)] else Decimal(n / 10) + [DigitChar(n % 10)]
  }

  /** Reading back the decimal numeral of `n` gives `n`. */
  lemma {:induction false} DecimalRoundTrip(n: nat)
    ensures DigitsValue(Decimal(n)) == n
  {
    if n >= 10 {
      var r := Decimal(n);
      assert r[..|r| - 1] == Decimal(n / 10);
      DecimalRoundTrip(n / 10);
    }
  }

  /** The ASCII lower-case of `c`; other characters are unchanged. */
  function LowerChar(c: char): char {
    if 'A' <= c <= 'Z' then (c as int + 32) as char else c
  }

  /** `str::to_lowercase` on the ASCII letters of `s`. */
  function Lower(s: string): (r: string)
    ensures |r| == |s|
    ensures forall i | 0 <= i < |s| :: r[i] == LowerChar(s[i])
  {
    if s == [] then [] else [LowerChar(s[0])] + Lower(s[1..])
  }

  /** Whether `s` begins with `p` (`str::starts_with`). */
  predicate StartsWith(s: string, p: string) {
    |p| <= |s| && s[..|p|] == p
  }

  /** Whether `s` ends with `p` (`str::ends_with`). */
  predicate EndsWith(s: string, p: string) {
    |p| <= |s| && s[|s| - |p|..] == p
  }

  /** The first position of `c` in `s` (`str::find` on a character), or None when `c` does not occur. */
  function Find(s: string, c: char): (r: Option<nat>)
    ensures r.None? <==> c !in s
    ensures r.Some? ==> r.value < |s| && s[r.value] == c && c !in s[..(r.value)]
  {
    if s == [] then None
    else if s[0] == c then Some(0)
    else match Find(s[1..], c)
      case None => None
      case Some(k) => assert s[..k + 1] == [s[0]] + s[1..][..k]; Some(k + 1)
  }

  /** `c` is found where it first occurs, after text that does not hold it. */
  lemma FindAfter(a: string, b: string, c: char)
    requires c !in a && b != [] && b[0] == c
    ensures Find(a + b, c) == Some(|a|)
  {
    var s := a + b;
    assert s[|a|] == c;
    assert s[..|a|] == a;
    var k := Find(s, c).value;
    assert forall i | 0 <= i < |a| :: s[i] != c;
    assert k >= |a|;
    assert forall i | |a| < i <= |s| :: s[..i][|a|] == c;
  }

  /** Concatenation regroups freely. */
  lemma AppendAssoc(a: string, b: string, c: string)
    ensures (a + b) + c == a + (b + c)
  {
  }

  /** Cutting a concatenation inside its second part. */
  lemma SliceShift(w: string, s: string, a: nat, b: nat)
    requires a <= b <= |s|
    ensures (w + s)[|w| + a..|w| + b] == s[a..b] && (w + s)[|w| + b..] == s[b..]
  {
  }

  /** A text is its three consecutive slices. */
  lemma ThreeSlices(s: string, a: nat, b: nat)
    requires a <= b <= |s|
    ensures s == s[..a] + s[a..b] + s[b..]
  {
  }

  /** Cutting a concatenation inside its first part. */
  lemma SliceAppend(a: string, b: string, e: nat)
    requires e <= |a|
    ensures (a + b)[..e] == a[..e] && (a + b)[e..] == a[e..] + b
  {
  }

  /** A concatenation splits back into its two parts. */
  lemma SplitAt(p: string, body: string, s: string)
    requires s == p + body
    ensures s[..|p|] == p && s[|p|..] == body
  {
  }
}
