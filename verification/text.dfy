/** The handful of Python `str` operations the program relies on, over ASCII:
    `strip`, `rstrip`, `startswith`, `endswith`, `split`, `upper`, `isdigit`,
    `replace` and `int(str)`.  Unicode whitespace and digits are not modelled. */
module Text {
  import opened Wrappers

  /** Python's default `strip()` set, restricted to ASCII: space, tab, the
      line breaks `\n`, `\v`, `\f`, `\r` and the separators `\x1c`-`\x1f`. */
  predicate IsSpace(c: char) {
    c == ' ' || c == '\t' || c == '\n' || c == '\r' || c == '\U{000B}' || c == '\U{000C}' ||
    '\U{001C}' <= c <= '\U{001F}'
  }

  predicate IsDigit(c: char) {
    '0' <= c <= '9'
  }

  /** Python's `s.isdigit()`: non-empty and every character a digit. */
  predicate AllDigits(s: string) {
    |s| > 0 && forall i :: 0 <= i < |s| ==> IsDigit(s[i])
  }

  predicate StartsWith(s: string, prefix: string) {
    |prefix| <= |s| && s[..|prefix|] == prefix
  }

  predicate EndsWith(s: string, suffix: string) {
    |suffix| <= |s| && s[|s| - |suffix|..] == suffix
  }

  /** `s.lstrip()`: drops the leading whitespace and nothing else. */
  function StripLeft(s: string): (r: string)
    ensures |r| <= |s| && r == s[|s| - |r|..]
    ensures forall i :: 0 <= i < |s| - |r| ==> IsSpace(s[i])
    ensures r == [] || !IsSpace(r[0])
  {
    if |s| > 0 && IsSpace(s[0]) then StripLeft(s[1..]) else s
  }

  /** `s.rstrip()`: `s` without the whitespace at its end. */
  function StripRight(s: string): (r: string)
    ensures |r| <= |s| && r == s[..|r|]
    ensures forall i :: |r| <= i < |s| ==> IsSpace(s[i])
    ensures r == [] || !IsSpace(r[|r| - 1])
  {
    if |s| > 0 && IsSpace(s[|s| - 1]) then StripRight(s[..|s| - 1]) else s
  }

  /** `s.rstrip(chars)` for a predicate on characters. */
  function StripRightBy(s: string, drop: char -> bool): (r: string)
    ensures |r| <= |s| && r == s[..|r|]
    ensures forall i :: |r| <= i < |s| ==> drop(s[i])
    ensures r == [] || !drop(r[|r| - 1])
  {
    if |s| > 0 && drop(s[|s| - 1]) then StripRightBy(s[..|s| - 1], drop) else s
  }

  /** `s.lstrip(chars)` for a predicate on characters. */
  function StripLeftBy(s: string, drop: char -> bool): (r: string)
    ensures |r| <= |s| && r == s[|s| - |r|..]
    ensures forall i :: 0 <= i < |s| - |r| ==> drop(s[i])
    ensures r == [] || !drop(r[0])
  {
    if |s| > 0 && drop(s[0]) then
      var r := StripLeftBy(s[1..], drop);
      assert s[1..][|s| - 1 - |r|..] == s[|s| - |r|..];
      assert forall i :: 1 <= i < |s| - |r| ==> s[i] == s[1..][i - 1];
      r
    else s
  }

  /** `r` is the slice of `s` from `k`, with only whitespace before and
      after it. */
  predicate Inside(s: string, k: int, r: string) {
    0 <= k && k + |r| <= |s| && r == s[k..k + |r|] &&
    (forall i :: 0 <= i < k ==> IsSpace(s[i])) &&
    (forall i :: k + |r| <= i < |s| ==> IsSpace(s[i]))
  }

  /** `s.strip()`: what is left after dropping the whitespace at both ends;
      `k` is the number of leading characters dropped. */
  function Strip(s: string): (r: string)
    ensures r == [] || (!IsSpace(r[0]) && !IsSpace(r[|r| - 1]))
    ensures Inside(s, |s| - |StripLeft(s)|, r)
  {
    var l := StripLeft(s);
    var r := StripRight(l);
    StripNoSpaceAtEnds(l, r);
    StripBothEnds(s, l, r);
    r
  }

  lemma StripNoSpaceAtEnds(l: string, r: string)
    requires l == [] || !IsSpace(l[0])
    requires |r| <= |l| && r == l[..|r|]
    requires r == [] || !IsSpace(r[|r| - 1])
    ensures r == [] || (!IsSpace(r[0]) && !IsSpace(r[|r| - 1]))
  {
    assert r == [] || r[0] == l[0];
  }

  /** Whitespace dropped from the left of `s` (giving `l`), then from the
      right of `l` (giving `r`): `r` sits inside `s` between two runs of
      whitespace. */
  lemma StripBothEnds(s: string, l: string, r: string)
    requires |l| <= |s| && l == s[|s| - |l|..] && forall i :: 0 <= i < |s| - |l| ==> IsSpace(s[i])
    requires |r| <= |l| && r == l[..|r|] && forall i :: |r| <= i < |l| ==> IsSpace(l[i])
    ensures Inside(s, |s| - |l|, r)
  {
    assert forall i :: |s| - |l| + |r| <= i < |s| ==> s[i] == l[i - (|s| - |l|)];
  }

  /** Python's `s.split(sep)` for a one-character separator. */
  function Split(s: string, sep: char): (r: seq<string>)
    ensures |r| >= 1
    ensures forall i :: 0 <= i < |r| ==> sep !in r[i]
    decreases |s|
  {
    if |s| == 0 then [""]
    else
      var rest := Split(s[1..], sep);
      if s[0] == sep then [""] + rest
      else [[s[0]] + rest[0]] + rest[1..]
  }

  /** `sep.join(pieces)`. */
  function Join(pieces: seq<string>, sep: char): string
    requires |pieces| >= 1
  {
    if |pieces| == 1 then pieces[0] else pieces[0] + [sep] + Join(pieces[1..], sep)
  }

  /** Splitting and joining again gives back the original text. */
  lemma {:induction false} JoinSplit(s: string, sep: char)
    ensures Join(Split(s, sep), sep) == s
    decreases |s|
  {
    if |s| > 0 {
      JoinSplit(s[1..], sep);
      var rest := Split(s[1..], sep);
      if s[0] != sep {
        if |rest| > 1 {
          assert Join(rest, sep) == rest[0] + [sep] + Join(rest[1..], sep);
          assert [[s[0]] + rest[0]] + rest[1..] == [[s[0]] + rest[0]] + rest[1..];
          var r := Split(s, sep);
          assert r[1..] == rest[1..];
          assert Join(r, sep) == ([s[0]] + rest[0]) + [sep] + Join(rest[1..], sep);
        }
      }
    }
  }

  /** ASCII `str.upper()`. */
  function UpperChar(c: char): char {
    if 'a' <= c <= 'z' then (c as int - 32) as char else c
  }

  function Upper(s: string): (r: string)
    ensures |r| == |s|
    ensures forall i :: 0 <= i < |s| ==> r[i] == UpperChar(s[i])
  {
    if |s| == 0 then [] else [UpperChar(s[0])] + Upper(s[1..])
  }

  /** `s.replace(target, replacement)` for a one-character `target`. */
  function ReplaceChar(s: string, target: char, replacement: string): (r: string)
    ensures target !in replacement ==> target !in r
    ensures target !in s ==> r == s
  {
    if |s| == 0 then []
    else (if s[0] == target then replacement else [s[0]]) + ReplaceChar(s[1..], target, replacement)
  }

  function DigitValue(c: char): nat
    requires IsDigit(c)
  {
    c as int - '0' as int
  }

  function DigitChar(d: nat): (c: char)
    requires d < 10
    ensures IsDigit(c) && DigitValue(c) == d
  {
    ('0' as int + d) as char
  }

  /** The decimal value of a run of digits. */
  function DigitsValue(s: string): nat
    requires forall i :: 0 <= i < |s| ==> IsDigit(s[i])
  {
    if |s| == 0 then 0 else 10 * DigitsValue(s[..|s| - 1]) + DigitValue(s[|s| - 1])
  }

  /** Python's `str(n)` for a natural number. */
  function ShowNat(n: nat): (r: string)
    ensures AllDigits(r)
  {
    if n < 10 then [DigitChar(n)] else ShowNat(n / 10) + [DigitChar(n % 10)]
  }

  /** Printing a number and reading it back gives the number. */
  lemma {:induction false} ShowNatRoundTrip(n: nat)
    ensures DigitsValue(ShowNat(n)) == n
  {
    if n >= 10 {
      ShowNatRoundTrip(n / 10);
      var s := ShowNat(n);
      assert s[..|s| - 1] == ShowNat(n / 10);
    }
  }

  /** Python's `int(s)` on a string: surrounding whitespace, an optional sign,
      then decimal digits; anything else raises (here `None`). */
  function ParseInt(s: string): (r: Option<int>)
    ensures r.Some? <==> var t := Strip(s);
      AllDigits(t) || (|t| > 1 && (t[0] == '+' || t[0] == '-') && AllDigits(t[1..]))
    ensures r.Some? && AllDigits(Strip(s)) ==> r.value == DigitsValue(Strip(s)) && r.value >= 0
    ensures r.Some? && Strip(s)[0] == '+' ==> r.value == DigitsValue(Strip(s)[1..])
    ensures r.Some? && Strip(s)[0] == '-' ==> r.value == 0 - DigitsValue(Strip(s)[1..]) && r.value <= 0
  {
    var t := Strip(s);
    if AllDigits(t) then Some(DigitsValue(t))
    else if |t| > 1 && t[0] == '+' && AllDigits(t[1..]) then Some(DigitsValue(t[1..]))
    else if |t| > 1 && t[0] == '-' && AllDigits(t[1..]) then Some(0 - DigitsValue(t[1..]))
    else None
  }

  /** Every printed natural number is read back by `ParseInt`. */
  lemma ParseIntShowNat(n: nat)
    ensures ParseInt(ShowNat(n)) == Some(n)
  {
    var s := ShowNat(n);
    assert Strip(s) == s by {
      StripOfDigits(s);
    }
    ShowNatRoundTrip(n);
  }

  /** A minus sign in front of a printed natural number reads back negated. */
  lemma ParseIntNegated(n: nat)
    ensures ParseInt("-" + ShowNat(n)) == Some(0 - n)
  {
    var s := ShowNat(n);
    var m := "-" + s;
    assert m[0] == '-' && m[1..] == s;
    assert m[|m| - 1] == s[|s| - 1];
    StripUnpadded(m);
    ShowNatRoundTrip(n);
  }

  lemma StripOfDigits(s: string)
    requires AllDigits(s)
    ensures Strip(s) == s
  {
    StripUnpadded(s);
  }

  /** Text that neither starts nor ends with whitespace is its own strip. */
  lemma StripUnpadded(s: string)
    requires |s| > 0 && !IsSpace(s[0]) && !IsSpace(s[|s| - 1])
    ensures Strip(s) == s
  {
    assert StripLeft(s) == s;
    assert StripRight(s) == s;
  }

  /** Dropped characters appended at the end are stripped again. */
  lemma {:induction false} StripRightAppend(s: string, t: string, drop: char -> bool)
    requires forall i :: 0 <= i < |t| ==> drop(t[i])
    ensures StripRightBy(s + t, drop) == StripRightBy(s, drop)
    decreases |t|
  {
    if |t| == 0 {
      assert s + t == s;
    } else {
      var u := t[..|t| - 1];
      assert (s + t)[..|s + t| - 1] == s + u;
      StripRightAppend(s, u, drop);
    }
  }

  /** Right-stripping `pre + k` strips inside `k` unless nothing of `k` survives. */
  lemma {:induction false} StripRightPrepend(pre: string, k: string, drop: char -> bool)
    ensures StripRightBy(pre + k, drop) ==
      if StripRightBy(k, drop) == [] then StripRightBy(pre, drop) else pre + StripRightBy(k, drop)
    decreases |k|
  {
    if |k| == 0 {
      assert pre + k == pre;
    } else if drop(k[|k| - 1]) {
      var u := k[..|k| - 1];
      assert (pre + k)[..|pre + k| - 1] == pre + u;
      StripRightPrepend(pre, u, drop);
    }
  }

  /** Dropped characters put in front are stripped again. */
  lemma {:induction false} StripLeftPrepend(pre: string, s: string, drop: char -> bool)
    requires forall c :: c in pre ==> drop(c)
    ensures StripLeftBy(pre + s, drop) == StripLeftBy(s, drop)
    decreases |pre|
  {
    if |pre| == 0 {
      assert pre + s == s;
    } else {
      assert (pre + s)[1..] == pre[1..] + s;
      StripLeftPrepend(pre[1..], s, drop);
    }
  }

  /** Replacing in a concatenation replaces in each part. */
  lemma {:induction false} ReplaceAppend(a: string, b: string, target: char, replacement: string)
    ensures ReplaceChar(a + b, target, replacement) == ReplaceChar(a, target, replacement) + ReplaceChar(b, target, replacement)
    decreases |a|
  {
    if |a| == 0 {
      assert a + b == b;
    } else {
      assert (a + b)[0] == a[0] && (a + b)[1..] == a[1..] + b;
      ReplaceAppend(a[1..], b, target, replacement);
      ReplaceCons(a + b, target, replacement);
      ReplaceCons(a, target, replacement);
      AppendAssoc(if a[0] == target then replacement else [a[0]],
        ReplaceChar(a[1..], target, replacement), ReplaceChar(b, target, replacement));
    }
  }

  lemma ReplaceCons(s: string, target: char, replacement: string)
    requires |s| > 0
    ensures ReplaceChar(s, target, replacement) ==
      (if s[0] == target then replacement else [s[0]]) + ReplaceChar(s[1..], target, replacement)
  {
  }

  lemma AppendAssoc<T>(x: seq<T>, y: seq<T>, z: seq<T>)
    ensures x + (y + z) == (x + y) + z
  {
  }

  /** Text without the separator splits into just itself. */
  lemma {:induction false} SplitWithout(a: string, sep: char)
    requires sep !in a
    ensures Split(a, sep) == [a]
    decreases |a|
  {
    if |a| > 0 {
      SplitWithout(a[1..], sep);
      assert [a[0]] + a[1..] == a;
    }
  }

  /** A separator after a separator-free prefix ends the first piece. */
  lemma {:induction false} SplitAtFirst(a: string, b: string, sep: char)
    requires sep !in a
    ensures Split(a + [sep] + b, sep) == [a] + Split(b, sep)
    decreases |a|
  {
    var s := a + [sep] + b;
    if |a| == 0 {
      assert s[1..] == b;
    } else {
      assert s[1..] == a[1..] + [sep] + b;
      SplitAtFirst(a[1..], b, sep);
      assert [a[0]] + a[1..] == a;
    }
  }

  /** Joining pieces that do not hold the separator and splitting again gives
      back the pieces. */
  lemma {:induction false} SplitJoin(pieces: seq<string>, sep: char)
    requires |pieces| >= 1
    requires forall i :: 0 <= i < |pieces| ==> sep !in pieces[i]
    ensures Split(Join(pieces, sep), sep) == pieces
    decreases |pieces|
  {
    if |pieces| == 1 {
      SplitWithout(pieces[0], sep);
    } else {
      SplitJoin(pieces[1..], sep);
      SplitAtFirst(pieces[0], Join(pieces[1..], sep), sep);
      assert [pieces[0]] + pieces[1..] == pieces;
    }
  }
}
