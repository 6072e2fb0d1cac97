/**
  String primitives the TypeScript code takes from the language runtime:
  `trim`, ASCII `toLowerCase`, `includes`, and the decimal rendering of
  integers used by `String(n)` and template literals.
 */
module Text {
  import opened Wrappers

  /** ECMAScript WhiteSpace and LineTerminator code points: what `String.prototype.trim` removes. */
  predicate IsSpace(c: char) {
    || c == '\t' || c == '\n' || c == '\U{B}' || c == '\U{C}' || c == '\r' || c == ' '
    || c == '\U{A0}' || c == '\U{1680}' || ('\U{2000}' <= c <= '\U{200A}')
    || c == '\U{2028}' || c == '\U{2029}' || c == '\U{202F}' || c == '\U{205F}'
    || c == '\U{3000}' || c == '\U{FEFF}'
  }

  /** Drops leading white space. */
  function TrimStart(s: string): (r: string)
    ensures |r| <= |s| && r == s[|s| - |r|..]
    ensures r == [] || !IsSpace(r[0])
    ensures forall i :: 0 <= i < |s| - |r| ==> IsSpace(s[i])
  {
    if |s| > 0 && IsSpace(s[0]) then TrimStart(s[1..]) else s
  }

  /** Drops trailing white space. */
  function TrimEnd(s: string): (r: string)
    ensures |r| <= |s| && r == s[..|r|]
    ensures r == [] || !IsSpace(r[|r| - 1])
    ensures forall i :: |r| <= i < |s| ==> IsSpace(s[i])
  {
    if |s| > 0 && IsSpace(s[|s| - 1]) then TrimEnd(s[..|s| - 1]) else s
  }

  /** `String.prototype.trim`: the text between the first and the last non-space character. */
  function Trim(s: string): (r: string)
    ensures |r| <= |s|
    ensures r == [] || (!IsSpace(r[0]) && !IsSpace(r[|r| - 1]))
    ensures r == [] <==> forall i :: 0 <= i < |s| ==> IsSpace(s[i])
    ensures exists i :: SpaceAround(s, i, r)
  {
    var t := TrimStart(s);
    var r := TrimEnd(t);
    TrimIsInner(s, t, r);
    r
  }

  /**
    A text `r` left once leading white space is dropped from `s` (giving
    `t`) and trailing white space from `t` sits between white space in `s`.
   */
  lemma TrimIsInner(s: string, t: string, r: string)
    requires |t| <= |s| && t == s[|s| - |t|..] && forall i :: 0 <= i < |s| - |t| ==> IsSpace(s[i])
    requires |r| <= |t| && r == t[..|r|] && forall i :: |r| <= i < |t| ==> IsSpace(t[i])
    ensures SpaceAround(s, |s| - |t|, r)
  {
    PrefixOfSuffix(s, |s| - |t|, r);
    SpaceAfter(s, |s| - |t|, |r|);
  }

  /** A prefix of the suffix from `i` is the slice starting at `i`. */
  lemma PrefixOfSuffix<T>(s: seq<T>, i: nat, r: seq<T>)
    requires i <= |s| && r <= s[i..]
    ensures i + |r| <= |s| && r == s[i..i + |r|]
  {
  }

  /** Spaces at the end of the suffix from `i` are spaces at the end of `s`. */
  lemma SpaceAfter(s: string, i: nat, n: nat)
    requires i <= |s| && forall k :: n <= k < |s| - i ==> IsSpace(s[i..][k])
    ensures forall k :: i + n <= k < |s| ==> IsSpace(s[k])
  {
    forall k | i + n <= k < |s|
      ensures IsSpace(s[k])
    {
      assert s[k] == s[i..][k - i];
    }
  }

  /** `s` is `r` at position `i` with only white space before and after it. */
  predicate SpaceAround(s: string, i: int, r: string) {
    && 0 <= i <= |s| - |r|
    && r == s[i..i + |r|]
    && (forall k :: 0 <= k < i ==> IsSpace(s[k]))
    && (forall k :: i + |r| <= k < |s| ==> IsSpace(s[k]))
  }

  /** A text with no space at either end is its own trimming. */
  lemma TrimUnchanged(s: string)
    requires s == [] || (!IsSpace(s[0]) && !IsSpace(s[|s| - 1]))
    ensures Trim(s) == s
  {
    assert TrimStart(s) == s;
    assert TrimEnd(s) == s;
  }

  /** Trimming an already trimmed text changes nothing. */
  lemma TrimIdempotent(s: string)
    ensures Trim(Trim(s)) == Trim(s)
  {
    TrimUnchanged(Trim(s));
  }

  /** Lower-cases the ASCII letters and keeps every other character. */
  function LowerChar(c: char): char {
    if 'A' <= c <= 'Z' then (c as int + 32) as char else c
  }

  function Lower(s: string): (r: string)
    ensures |r| == |s|
    ensures forall i :: 0 <= i < |s| ==> r[i] == LowerChar(s[i])
  {
    seq(|s|, i requires 0 <= i < |s| => LowerChar(s[i]))
  }

  /** `s` begins with `t`, compared character by character. */
  predicate StartsWith(s: string, t: string)
    decreases |t|
  {
    |t| == 0 || (|s| > 0 && s[0] == t[0] && StartsWith(s[1..], t[1..]))
  }

  lemma {:induction false} StartsWithIsPrefix(s: string, t: string)
    ensures StartsWith(s, t) <==> t <= s
    decreases |t|
  {
    if |t| > 0 && |s| > 0 {
      StartsWithIsPrefix(s[1..], t[1..]);
      if t <= s {
        assert t[1..] <= s[1..];
      }
      if s[0] == t[0] && t[1..] <= s[1..] {
        assert t == [t[0]] + t[1..] && s == [s[0]] + s[1..];
      }
    }
  }

  /** `s.includes(t)`: `t` occurs in `s` at some position. */
  predicate Contains(s: string, t: string)
    decreases |s|
  {
    StartsWith(s, t) || (|s| > 0 && Contains(s[1..], t))
  }

  /** Every prefix of a contained text is contained too. */
  lemma {:induction false} ContainsPrefix(s: string, t: string, w: string)
    requires Contains(s, t) && w <= t
    ensures Contains(s, w)
    decreases |s|
  {
    StartsWithIsPrefix(s, t);
    StartsWithIsPrefix(s, w);
    if !StartsWith(s, t) {
      ContainsPrefix(s[1..], t, w);
    }
  }

  /** A text never contains a longer one. */
  lemma {:induction false} ContainsNotLonger(s: string, t: string)
    requires |s| < |t|
    ensures !Contains(s, t)
    decreases |s|
  {
    StartsWithIsPrefix(s, t);
    if |s| > 0 {
      ContainsNotLonger(s[1..], t);
    }
  }

  /** A text whose first character does not occur in `s` is not contained in `s`. */
  lemma {:induction false} ContainsNeedsFirstChar(s: string, t: string)
    requires |t| > 0 && t[0] !in s
    ensures !Contains(s, t)
    decreases |s|
  {
    if |s| > 0 {
      ContainsNeedsFirstChar(s[1..], t);
    }
  }

  /** A text with a character that does not occur in `s` is not contained in `s`. */
  lemma {:induction false} ContainsNeedsChar(s: string, t: string, k: nat)
    requires k < |t| && t[k] !in s
    ensures !Contains(s, t)
    decreases |s|
  {
    StartsWithIsPrefix(s, t);
    if |s| > 0 {
      ContainsNeedsChar(s[1..], t, k);
    }
  }

  /** Putting text in front keeps every occurrence. */
  lemma {:induction false} ContainsExtend(a: string, s: string, t: string)
    requires Contains(s, t)
    ensures Contains(a + s, t)
    decreases |a|
  {
    if a != [] {
      assert (a + s)[1..] == a[1..] + s;
      ContainsExtend(a[1..], s, t);
    } else {
      assert a + s == s;
    }
  }

  /** A text is contained in any text it occurs in. */
  lemma {:induction false} ContainsInfix(a: string, t: string, b: string)
    ensures Contains(a + t + b, t)
    decreases |a|
  {
    if a == [] {
      assert a + t + b == t + b;
      StartsWithIsPrefix(t + b, t);
    } else {
      assert (a + t + b)[1..] == a[1..] + t + b;
      ContainsInfix(a[1..], t, b);
    }
  }

  /** Splits `s` at the first `sep`: the text before it and the text after it. */
  function SplitFirst(s: string, sep: char): (r: Option<(string, string)>)
    ensures r.None? <==> sep !in s
    ensures r.Some? ==> sep !in r.value.0 && s == r.value.0 + [sep] + r.value.1
  {
    if s == [] then None
    else if s[0] == sep then Some(([], s[1..]))
    else
      match SplitFirst(s[1..], sep)
      case None => None
      case Some((a, b)) => Some(([s[0]] + a, b))
  }

  /** Splitting a text at a separator its first part lacks recovers both parts. */
  lemma {:induction false} SplitFirstJoin(a: string, sep: char, b: string)
    requires sep !in a
    ensures SplitFirst(a + [sep] + b, sep) == Some((a, b))
    decreases |a|
  {
    if a == [] {
      assert a + [sep] + b == [sep] + b;
    } else {
      assert (a + [sep] + b)[1..] == a[1..] + [sep] + b;
      SplitFirstJoin(a[1..], sep, b);
      assert [a[0]] + a[1..] == a;
    }
  }

  predicate IsDigit(c: char) {
    '0' <= c <= '9'
  }

  predicate AllDigits(s: string) {
    forall i :: 0 <= i < |s| ==> IsDigit(s[i])
  }

  function DigitChar(d: nat): (c: char)
    requires d < 10
    ensures IsDigit(c)
  {
    ('0' as int + d) as char
  }

  /** Decimal digits of `n`, most significant first, without leading zeros. */
  function NatToString(n: nat): (r: string)
    ensures |r| > 0 && AllDigits(r)
    ensures r[0] == '0' ==> n == 0
  {
    if n < 10 then [DigitChar(n)] else NatToString(n / 10) + [DigitChar(n % 10)]
  }

  /** The value of a string of decimal digits (the empty string reads as 0). */
  function DigitsValue(s: string): nat
    requires AllDigits(s)
  {
    if s == [] then 0 else DigitsValue(s[..|s| - 1]) * 10 + (s[|s| - 1] as int - '0' as int)
  }

  /** Reading back the digits of a natural number gives the number. */
  lemma {:induction false} NatToStringRoundTrip(n: nat)
    ensures DigitsValue(NatToString(n)) == n
    decreases n
  {
    var s := NatToString(n);
    if n >= 10 {
      assert s[..|s| - 1] == NatToString(n / 10);
      NatToStringRoundTrip(n / 10);
    }
  }

  /** `String(i)` for an integer-valued number. */
  function IntToString(i: int): (r: string)
    ensures |r| > 0
    ensures r[0] == '-' <==> i < 0
    ensures i >= 0 ==> AllDigits(r)
    ensures forall k :: 0 <= k < |r| ==> IsDigit(r[k]) || r[k] == '-'
  {
    if i < 0 then "-" + NatToString(-i) else NatToString(i)
  }

  /** Reads an optionally signed decimal integer; anything else is `None`. */
  function ParseInt(s: string): Option<int> {
    if |s| > 1 && s[0] == '-' && AllDigits(s[1..]) then Some(0 - DigitsValue(s[1..]) as int)
    else if |s| > 1 && s[0] == '+' && AllDigits(s[1..]) then Some(DigitsValue(s[1..]))
    else if |s| > 0 && AllDigits(s) then Some(DigitsValue(s))
    else None
  }

  /** `ParseInt` inverts `IntToString`, so `IntToString` is injective. */
  lemma IntToStringRoundTrip(i: int)
    ensures ParseInt(IntToString(i)) == Some(i)
  {
    if i < 0 {
      var s := IntToString(i);
      assert s[1..] == NatToString(-i);
      NatToStringRoundTrip(-i);
    } else {
      NatToStringRoundTrip(i);
    }
  }

  /** Number of UTF-16 code units: what a JavaScript string's `length` counts. */
  function Utf16Length(s: string): nat {
    if s == [] then 0
    else Utf16Length(s[..|s| - 1]) + (if s[|s| - 1] as int >= 0x1_0000 then 2 else 1)
  }
}
