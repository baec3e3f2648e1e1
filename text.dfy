/**
 * The few Python string operations the detector relies on: `str.strip()`,
 * `str.lower()`, `str.split(sep)` with a one-character separator, `int(s)`
 * on a decimal string, and the decimal rendering of an integer.
 */
module Text {
  import opened Wrappers

  /** Characters for which Python's `str.isspace()` holds. */
  predicate IsSpace(c: char) {
    || c == ' ' || ('\t' <= c <= '\r') || ('\U{1C}' <= c <= '\U{1F}')
    || c == '\U{85}' || c == '\U{A0}' || c == '\U{1680}'
    || ('\U{2000}' <= c <= '\U{200A}') || c == '\U{2028}' || c == '\U{2029}'
    || c == '\U{202F}' || c == '\U{205F}' || c == '\U{3000}'
  }

  predicate AllSpace(s: string) {
    forall i :: 0 <= i < |s| ==> IsSpace(s[i])
  }

  /** Leading whitespace removed: `r` is a suffix of `s`, only whitespace was dropped. */
  function StripLeft(s: string): (r: string)
    ensures |r| <= |s| && r == s[|s| - |r|..]
    ensures AllSpace(s[..|s| - |r|])
    ensures r == [] || !IsSpace(r[0])
  {
    if |s| > 0 && IsSpace(s[0]) then
      var t := s[1..];
      var r := StripLeft(t);
      assert r == t[|t| - |r|..] == s[|s| - |r|..];
      assert s[..|s| - |r|] == [s[0]] + t[..|t| - |r|];
      r
    else s
  }

  /** Trailing whitespace removed: `r` is a prefix of `s`, only whitespace was dropped. */
  function StripRight(s: string): (r: string)
    ensures |r| <= |s| && r == s[..|r|]
    ensures AllSpace(s[|r|..])
    ensures r == [] || !IsSpace(r[|r| - 1])
  {
    if |s| > 0 && IsSpace(s[|s| - 1]) then
      var p := s[..|s| - 1];
      var r := StripRight(p);
      assert s[..|r|] == p[..|r|];
      assert s[|r|..] == p[|r|..] + [s[|s| - 1]];
      r
    else s
  }

  /** Python's `s.strip()`. */
  function Strip(s: string): string {
    StripRight(StripLeft(s))
  }

  /** The result of `strip` neither starts nor ends with whitespace. */
  lemma StripEnds(s: string)
    ensures Strip(s) == [] || (!IsSpace(Strip(s)[0]) && !IsSpace(Strip(s)[|Strip(s)| - 1]))
  {
    var t := StripLeft(s);
    var r := StripRight(t);
    assert r == [] || r[0] == t[0];
  }

  /**
   * `strip` cuts `s` into whitespace, the result, and whitespace. With
   * `StripEnds` and `StripPadded` this pins `strip` down completely.
   */
  lemma StripSlice(s: string)
    ensures exists pre, post :: AllSpace(pre) && AllSpace(post) && s == pre + Strip(s) + post
  {
    var pre, post := StripCut(s);
  }

  lemma StripCut(s: string) returns (pre: string, post: string)
    ensures AllSpace(pre) && AllSpace(post) && s == pre + Strip(s) + post
  {
    var t := StripLeft(s);
    var r := StripRight(t);
    pre, post := s[..|s| - |t|], t[|r|..];
    Halves(t, |r|);
    Halves(s, |s| - |t|);
    Associative(pre, r, post);
  }

  lemma Associative<T>(a: seq<T>, b: seq<T>, c: seq<T>)
    ensures a + (b + c) == a + b + c
  {
  }

  lemma Halves<T>(s: seq<T>, k: nat)
    requires k <= |s|
    ensures s == s[..k] + s[k..]
  {
  }

  lemma {:induction false} StripLeftSpaces(pre: string, s: string)
    requires AllSpace(pre)
    requires s == [] || !IsSpace(s[0])
    ensures StripLeft(pre + s) == s
  {
    if pre != [] {
      assert (pre + s)[1..] == pre[1..] + s;
      StripLeftSpaces(pre[1..], s);
    }
  }

  lemma {:induction false} StripRightSpaces(s: string, post: string)
    requires AllSpace(post)
    requires s == [] || !IsSpace(s[|s| - 1])
    ensures StripRight(s + post) == s
  {
    if post != [] {
      assert (s + post)[..|s + post| - 1] == s + post[..|post| - 1];
      StripRightSpaces(s, post[..|post| - 1]);
    }
  }

  /** Surrounding whitespace is exactly what `strip` removes. */
  lemma StripPadded(pre: string, s: string, post: string)
    requires AllSpace(pre) && AllSpace(post)
    requires s == [] || (!IsSpace(s[0]) && !IsSpace(s[|s| - 1]))
    ensures Strip(pre + s + post) == s
  {
    if s == [] {
      assert pre + s + post == pre + post + [];
      assert AllSpace(pre + post);
      StripLeftSpaces(pre + post, []);
    } else {
      assert pre + s + post == pre + (s + post);
      StripLeftSpaces(pre, s + post);
      StripRightSpaces(s, post);
    }
  }

  /** Python's `c.lower()` on the ASCII letters; other characters are kept. */
  function LowerChar(c: char): char {
    if 'A' <= c <= 'Z' then (c as int + 32) as char else c
  }

  function Lower(s: string): (r: string)
    ensures |r| == |s|
    ensures forall i :: 0 <= i < |s| ==> r[i] == LowerChar(s[i])
  {
    if s == [] then [] else [LowerChar(s[0])] + Lower(s[1..])
  }

  /** Number of occurrences of `c` in `s`. */
  function Count(s: string, c: char): nat {
    if s == [] then 0 else (if s[0] == c then 1 else 0) + Count(s[1..], c)
  }

  lemma {:induction false} CountZero(s: string, c: char)
    ensures Count(s, c) == 0 <==> c !in s
  {
    if s != [] {
      CountZero(s[1..], c);
      assert c in s <==> s[0] == c || c in s[1..];
    }
  }

  lemma {:induction false} CountConcat(a: string, b: string, c: char)
    ensures Count(a + b, c) == Count(a, c) + Count(b, c)
  {
    if a == [] {
      assert a + b == b;
    } else {
      assert (a + b)[1..] == a[1..] + b;
      CountConcat(a[1..], b, c);
    }
  }

  /** Python's `s.split(c)`: the pieces between occurrences of `c`, empty pieces included. */
  function Split(s: string, c: char): (parts: seq<string>)
    ensures |parts| >= 1
  {
    if s == [] then [[]]
    else
      var rest := Split(s[1..], c);
      if s[0] == c then [[]] + rest else [[s[0]] + rest[0]] + rest[1..]
  }

  /** The inverse of `Split`: Python's `c.join(parts)`. */
  function Join(parts: seq<string>, c: char): string
    requires |parts| >= 1
  {
    if |parts| == 1 then parts[0] else parts[0] + [c] + Join(parts[1..], c)
  }

  lemma {:induction false} JoinSplit(s: string, c: char)
    ensures Join(Split(s, c), c) == s
  {
    if s != [] {
      JoinSplit(s[1..], c);
      var rest := Split(s[1..], c);
      if s[0] != c {
        var parts := Split(s, c);
        assert parts[1..] == rest[1..];
        if |rest| > 1 {
          assert rest == [rest[0]] + rest[1..];
        }
      }
    }
  }

  lemma {:induction false} SplitPieces(s: string, c: char)
    ensures |Split(s, c)| == Count(s, c) + 1
    ensures forall i :: 0 <= i < |Split(s, c)| ==> c !in Split(s, c)[i]
  {
    if s != [] {
      SplitPieces(s[1..], c);
      var rest := Split(s[1..], c);
      if s[0] != c {
        var parts := Split(s, c);
        forall i | 0 <= i < |parts| ensures c !in parts[i] {
          if i > 0 { assert parts[i] == rest[i]; }
          else { assert parts[0] == [s[0]] + rest[0]; }
        }
      }
    }
  }

  lemma {:induction false} SplitWhole(s: string, c: char)
    requires c !in s
    ensures Split(s, c) == [s]
  {
    if s != [] {
      assert s[0] != c && c !in s[1..];
      SplitWhole(s[1..], c);
      assert [s[0]] + s[1..] == s;
    }
  }

  /** `Split` yields exactly two pieces `[a, b]` precisely when `s` is `a`, `c`, `b`. */
  lemma {:induction false} SplitTwo(s: string, c: char, a: string, b: string)
    ensures Split(s, c) == [a, b] <==> (s == a + [c] + b && c !in a && c !in b)
  {
    if s == a + [c] + b && c !in a && c !in b {
      SplitAround(a, c, b);
    }
    if Split(s, c) == [a, b] {
      SplitPieces(s, c);
      JoinSplit(s, c);
      assert Split(s, c)[1..] == [b];
    }
  }

  lemma {:induction false} SplitAround(a: string, c: char, b: string)
    requires c !in a && c !in b
    ensures Split(a + [c] + b, c) == [a, b]
  {
    if a == [] {
      assert (a + [c] + b)[1..] == b;
      SplitWhole(b, c);
    } else {
      assert (a + [c] + b)[1..] == a[1..] + [c] + b;
      assert (a + [c] + b)[0] == a[0] != c && c !in a[1..];
      SplitAround(a[1..], c, b);
      assert [a[0]] + a[1..] == a;
    }
  }

  predicate IsDigit(c: char) {
    '0' <= c <= '9'
  }

  /**
   * The digit part accepted by Python's `int()` in base 10: ASCII digits, with
   * single underscores allowed between two digits.
   */
  predicate WellFormedDigits(s: string) {
    && |s| > 0
    && IsDigit(s[0]) && IsDigit(s[|s| - 1])
    && (forall i :: 0 <= i < |s| ==> IsDigit(s[i]) || s[i] == '_')
    && (forall i :: 0 <= i < |s| - 1 ==> !(s[i] == '_' && s[i + 1] == '_'))
  }

  /** The decimal value of a digit string, underscores ignored. */
  function DigitsValue(s: string): nat {
    if s == [] then 0
    else if s[|s| - 1] == '_' then DigitsValue(s[..|s| - 1])
    else 10 * DigitsValue(s[..|s| - 1]) + (if IsDigit(s[|s| - 1]) then s[|s| - 1] as int - '0' as int else 0)
  }

  /** Stripping the empty string leaves it empty. */
  lemma StripNothing()
    ensures Strip([]) == []
  {
    assert StripLeft([]) == [];
  }

  /**
   * The ASCII information separators U+001C..U+001F. `str.strip()` removes them,
   * but the whitespace CPython's `int()` skips is only ASCII space and `\t`..`\r`
   * (with every non-ASCII space read as a space), so `int()` rejects a text
   * holding one of them anywhere.
   */
  predicate InfoSeparator(c: char) {
    '\U{1C}' <= c <= '\U{1F}'
  }

  predicate HasInfoSeparator(s: string) {
    exists i :: 0 <= i < |s| && InfoSeparator(s[i])
  }

  /** Python's `int(s)`, where `None` stands for the `ValueError` it raises. */
  function ParseInt(s: string): (r: Option<int>)
    ensures r.Some? ==> Strip(s) != []
    ensures HasInfoSeparator(s) ==> r == None
  {
    if HasInfoSeparator(s) then None else ParseSigned(Strip(s))
  }

  /** An optional sign followed by well-formed digits. */
  function ParseSigned(t: string): (r: Option<int>)
    ensures r.Some? ==> t != []
  {
    if |t| > 0 && (t[0] == '+' || t[0] == '-') then
      var digits := t[1..];
      if WellFormedDigits(digits) then
        var v: int := DigitsValue(digits);
        Some(if t[0] == '-' then -v else v)
      else None
    else if WellFormedDigits(t) then Some(DigitsValue(t))
    else None
  }

  function DigitChar(d: nat): char
    requires d < 10
  {
    ('0' as int + d) as char
  }

  /** Python's `str(n)` for a natural number. */
  function NatToString(n: nat): (r: string)
    ensures |r| >= 1
    ensures forall i :: 0 <= i < |r| ==> IsDigit(r[i])
  {
    if n < 10 then [DigitChar(n)] else NatToString(n / 10) + [DigitChar(n % 10)]
  }

  /** Python's `str(n)` for an integer. */
  function IntToString(n: int): string {
    if n < 0 then "-" + NatToString(-n) else NatToString(n)
  }

  lemma {:induction false} NatToStringValue(n: nat)
    ensures WellFormedDigits(NatToString(n))
    ensures DigitsValue(NatToString(n)) == n
  {
    var r := NatToString(n);
    if n >= 10 {
      NatToStringValue(n / 10);
      assert r[..|r| - 1] == NatToString(n / 10);
    }
  }

  /** A rendered integer has no surrounding whitespace: it starts with a sign or a digit and ends with a digit. */
  lemma IntToStringEnds(n: int)
    ensures IntToString(n) != [] && !IsSpace(IntToString(n)[0]) && !IsSpace(IntToString(n)[|IntToString(n)| - 1])
  {
    var t := IntToString(n);
    var d := NatToString(if n < 0 then -n else n);
    assert IsDigit(d[0]) && IsDigit(d[|d| - 1]);
    if n < 0 {
      assert t == "-" + d;
      assert t[0] == '-' && t[|t| - 1] == d[|d| - 1];
    }
  }

  lemma IntToStringSigned(n: int)
    ensures ParseSigned(IntToString(n)) == Some(n)
  {
    var m: nat := if n < 0 then -n else n;
    NatToStringValue(m);
    var d := NatToString(m);
    assert IsDigit(d[0]);
    if n < 0 {
      var t := IntToString(n);
      assert t == "-" + d;
      assert t[1..] == d;
    }
  }

  /** `str(n).strip() == str(n)`. */
  lemma IntToStringStripped(n: int)
    ensures Strip(IntToString(n)) == IntToString(n)
  {
    var s := IntToString(n);
    IntToStringEnds(n);
    StripPadded([], s, []);
    assert [] + s + [] == s;
  }

  /** Reading back a rendered integer gives the integer: `int(str(n)) == n`. */
  lemma IntToStringRoundTrip(n: int)
    ensures ParseInt(IntToString(n)) == Some(n)
  {
    NoInfoSeparatorInNumber(n);
    IntToStringStripped(n);
    IntToStringSigned(n);
  }

  /** A rendered integer is a sign and digits, none of them an information separator. */
  lemma NoInfoSeparatorInNumber(n: int)
    ensures !HasInfoSeparator(IntToString(n))
  {
    var t := IntToString(n);
    var d := NatToString(if n < 0 then -n else n);
    if n < 0 {
      assert t == "-" + d;
      assert forall i :: 1 <= i < |t| ==> t[i] == d[i - 1];
    }
  }
}
