/**
 * The few java.lang.String and java.lang.Integer operations the core relies on,
 * with their Java meaning: `split` with a literal separator (trailing empty
 * pieces dropped), `trim` (strips characters up to U+0020), `startsWith`,
 * `contains`, `replace`, ASCII `toUpperCase`, `Integer.parseInt` (32-bit) and
 * decimal formatting of integers.
 */
module JavaStrings {
  import opened Wrappers

  predicate StartsWith(s: string, prefix: string) {
    |prefix| <= |s| && s[..|prefix|] == prefix
  }

  /** `sub` occurs in `s` starting at index `i`. */
  predicate OccursAt(s: string, sub: string, i: int) {
    0 <= i && i + |sub| <= |s| && s[i..i + |sub|] == sub
  }

  predicate Contains(s: string, sub: string) {
    exists i :: 0 <= i <= |s| && OccursAt(s, sub, i)
  }

  // ---------------------------------------------------------------- split

  /**
   * Every piece of `s` around the leftmost non-overlapping occurrences of `sep`,
   * empty pieces included: k occurrences give k + 1 pieces.
   */
  function SplitAll(s: string, sep: string): (r: seq<string>)
    requires |sep| > 0
    ensures |r| >= 1
    decreases |s|
  {
    if |s| < |sep| then [s]
    else if s[..|sep|] == sep then [""] + SplitAll(s[|sep|..], sep)
    else
      var rest := SplitAll(s[1..], sep);
      [[s[0]] + rest[0]] + rest[1..]
  }

  /** `ps` without its trailing run of empty strings. */
  function DropTrailingEmpty(ps: seq<string>): (r: seq<string>)
    ensures |r| <= |ps| && r == ps[..|r|]
    ensures r == [] || r[|r| - 1] != ""
    ensures forall i :: |r| <= i < |ps| ==> ps[i] == ""
  {
    if ps == [] then []
    else if ps[|ps| - 1] == "" then DropTrailingEmpty(ps[..|ps| - 1])
    else ps
  }

  /**
   * Java's `s.split(sep)` for a separator that matches only itself: the input
   * alone when it holds no occurrence, otherwise the pieces without the
   * trailing empty ones (so "KEY=".split("=") is ["KEY"] and "=".split("=") is []).
   */
  function Split(s: string, sep: string): seq<string>
    requires |sep| > 0
  {
    var parts := SplitAll(s, sep);
    if |parts| == 1 then parts else DropTrailingEmpty(parts)
  }

  /** A string without the one-character separator is a single piece. */
  lemma {:induction false} SplitAllWithout(s: string, sep: string)
    requires |sep| == 1 && sep[0] !in s
    ensures SplitAll(s, sep) == [s]
    decreases |s|
  {
    if |s| >= 1 {
      assert s[..1] != sep by { assert s[0] in s; }
      SplitAllWithout(s[1..], sep);
      assert [s[0]] + s[1..] == s;
    }
  }

  /** The first piece ends at the first occurrence of a one-character separator. */
  lemma {:induction false} SplitAllAt(a: string, b: string, sep: string)
    requires |sep| == 1 && sep[0] !in a
    ensures SplitAll(a + sep + b, sep) == [a] + SplitAll(b, sep)
    decreases |a|
  {
    var s := a + sep + b;
    if a == [] {
      assert s[..1] == sep && s[1..] == b;
    } else {
      assert s[..1] != sep by { assert s[0] == a[0] && a[0] in a; }
      assert s[1..] == a[1..] + sep + b;
      SplitAllAt(a[1..], b, sep);
      assert [a[0]] + a[1..] == a;
    }
  }

  /** No occurrence in `s` means none in `s` without its first character. */
  lemma NoneInTail(s: string, sub: string)
    requires |s| > 0 && !Contains(s, sub)
    ensures !Contains(s[1..], sub)
  {
    forall i | 0 <= i <= |s| - 1 ensures !OccursAt(s[1..], sub, i) {
      assert !OccursAt(s, sub, i + 1);
      assert i + |sub| <= |s| - 1 ==> s[1..][i..i + |sub|] == s[i + 1..i + 1 + |sub|];
    }
  }

  /** A string with no occurrence of the separator is a single piece. */
  lemma {:induction false} SplitAllNone(s: string, sep: string)
    requires |sep| > 0 && !Contains(s, sep)
    ensures SplitAll(s, sep) == [s]
    decreases |s|
  {
    if |s| >= |sep| {
      assert !OccursAt(s, sep, 0);
      NoneInTail(s, sep);
      SplitAllNone(s[1..], sep);
      assert [s[0]] + s[1..] == s;
    }
  }

  /**
   * For a separator whose first character does not recur in it, the first
   * piece of `a + sep + b` is `a` when `sep` does not occur in `a`.
   */
  lemma {:induction false} SplitAllAtFirst(a: string, b: string, sep: string)
    requires |sep| > 0 && sep[0] !in sep[1..] && !Contains(a, sep)
    ensures SplitAll(a + sep + b, sep) == [a] + SplitAll(b, sep)
    decreases |a|
  {
    var s := a + sep + b;
    if a == [] {
      assert s[..|sep|] == sep && s[|sep|..] == b;
    } else {
      assert s[..|sep|] != sep by {
        if |a| >= |sep| {
          assert !OccursAt(a, sep, 0);
          assert s[..|sep|] == a[..|sep|];
        } else {
          assert s[|a|] == sep[0];
          assert sep[|a|] == sep[1..][|a| - 1];
        }
      }
      NoneInTail(a, sep);
      assert s[1..] == a[1..] + sep + b;
      SplitAllAtFirst(a[1..], b, sep);
      assert [a[0]] + a[1..] == a;
    }
  }

  // ---------------------------------------------------------------- trim, case, replace

  function TrimLeft(s: string): (r: string)
    ensures |r| <= |s| && r == s[|s| - |r|..]
    ensures r == [] || r[0] > ' '
  {
    if |s| > 0 && s[0] <= ' ' then TrimLeft(s[1..]) else s
  }

  function TrimRight(s: string): (r: string)
    ensures |r| <= |s| && r == s[..|r|]
    ensures r == [] || r[|r| - 1] > ' '
  {
    if |s| > 0 && s[|s| - 1] <= ' ' then TrimRight(s[..|s| - 1]) else s
  }

  /** Trailing trimming stops at the last character above U+0020. */
  lemma {:induction false} TrimRightAfter(a: string, b: string)
    requires |a| > 0 && a[|a| - 1] > ' '
    ensures TrimRight(a + b) == a + TrimRight(b)
    decreases |b|
  {
    if b != [] && b[|b| - 1] <= ' ' {
      assert (a + b)[..|a + b| - 1] == a + b[..|b| - 1];
      TrimRightAfter(a, b[..|b| - 1]);
    }
  }

  /** Java's `trim`: leading and trailing characters up to U+0020 removed. */
  function Trim(s: string): string {
    TrimRight(TrimLeft(s))
  }

  function UpperChar(c: char): char {
    if 'a' <= c <= 'z' then (c as int - 'a' as int + 'A' as int) as char else c
  }

  /** `toUpperCase` restricted to ASCII letters. */
  function ToUpper(s: string): (r: string)
    ensures |r| == |s| && forall i :: 0 <= i < |s| ==> r[i] == UpperChar(s[i])
  {
    if s == [] then [] else [UpperChar(s[0])] + ToUpper(s[1..])
  }

  /** `s.replace(from, to)` for one-character strings. */
  function ReplaceChar(s: string, from: char, to: char): (r: string)
    ensures |r| == |s|
    ensures forall i :: 0 <= i < |s| ==> r[i] == (if s[i] == from then to else s[i])
  {
    if s == [] then [] else [if s[0] == from then to else s[0]] + ReplaceChar(s[1..], from, to)
  }

  /** Replacing a character that does not occur changes nothing. */
  lemma {:induction false} ReplaceAbsent(s: string, from: char, to: char)
    requires from !in s
    ensures ReplaceChar(s, from, to) == s
  {
    var r := ReplaceChar(s, from, to);
    forall i | 0 <= i < |s| ensures r[i] == s[i] {
      assert s[i] in s;
    }
  }

  /** Replacement works piece by piece. */
  lemma {:induction false} ReplaceConcat(a: string, b: string, from: char, to: char)
    ensures ReplaceChar(a + b, from, to) == ReplaceChar(a, from, to) + ReplaceChar(b, from, to)
  {
    var r := ReplaceChar(a + b, from, to);
    var t := ReplaceChar(a, from, to) + ReplaceChar(b, from, to);
    assert |r| == |t|;
    forall i | 0 <= i < |r| ensures r[i] == t[i] {
      if i < |a| { assert (a + b)[i] == a[i]; } else { assert (a + b)[i] == b[i - |a|]; }
    }
  }

  // ---------------------------------------------------------------- decimal integers

  predicate IsDigit(c: char) {
    '0' <= c <= '9'
  }

  predicate AllDigits(s: string) {
    forall i :: 0 <= i < |s| ==> IsDigit(s[i])
  }

  function DigitChar(d: nat): (c: char)
    requires d < 10
    ensures IsDigit(c) && c as int - '0' as int == d
  {
    ('0' as int + d) as char
  }

  /** The value of a string of decimal digits, most significant first. */
  function DigitsValue(s: string): nat
    requires AllDigits(s)
  {
    if s == [] then 0 else DigitsValue(s[..|s| - 1]) * 10 + (s[|s| - 1] as int - '0' as int)
  }

  function NatToString(n: nat): (r: string)
    ensures |r| > 0 && AllDigits(r)
  {
    if n < 10 then [DigitChar(n)] else NatToString(n / 10) + [DigitChar(n % 10)]
  }

  /** Decimal text of `n`, as Java's string concatenation and `%d` produce it. */
  function IntToString(n: int): (r: string)
    ensures |r| > 0
    ensures forall i :: 0 <= i < |r| ==> IsDigit(r[i]) || r[i] == '-'
  {
    if n < 0 then "-" + NatToString(-n) else NatToString(n)
  }

  const INT_MIN: int := -0x8000_0000
  const INT_MAX: int := 0x7fff_ffff

  predicate InInt32(n: int) {
    INT_MIN <= n <= INT_MAX
  }

  /**
   * `Integer.parseInt`: an optional sign, then at least one digit, with a value
   * that fits in 32 bits; None where Java throws NumberFormatException.
   */
  function ParseInt(s: string): (r: Option<int>)
    ensures r.Some? ==> InInt32(r.value)
  {
    if s == [] then None
    else
      var body := if s[0] == '-' || s[0] == '+' then s[1..] else s;
      if body == [] || !AllDigits(body) then None
      else
        var v: int := if s[0] == '-' then -(DigitsValue(body) as int) else DigitsValue(body);
        if InInt32(v) then Some(v) else None
  }

  lemma {:induction false} DigitsValueOfNatToString(n: nat)
    ensures DigitsValue(NatToString(n)) == n
    decreases n
  {
    if n >= 10 {
      var s := NatToString(n);
      assert s[..|s| - 1] == NatToString(n / 10);
      DigitsValueOfNatToString(n / 10);
    }
  }

  /** Formatting then parsing gives back every 32-bit integer. */
  lemma ParseIntOfIntToString(n: int)
    requires InInt32(n)
    ensures ParseInt(IntToString(n)) == Some(n)
  {
    var s := IntToString(n);
    if n < 0 {
      assert s[1..] == NatToString(-n);
      DigitsValueOfNatToString(-n);
    } else {
      DigitsValueOfNatToString(n);
    }
  }

  /** Distinct integers have distinct decimal texts. */
  lemma IntToStringInjective(m: int, n: int)
    requires IntToString(m) == IntToString(n)
    ensures m == n
  {
    var s := IntToString(m);
    if m < 0 {
      assert s[0] == '-' && !IsDigit(s[0]);
      assert n < 0;
      assert s[1..] == NatToString(-m) == NatToString(-n);
      DigitsValueOfNatToString(-m);
      DigitsValueOfNatToString(-n);
    } else {
      assert IsDigit(s[0]);
      assert n >= 0;
      DigitsValueOfNatToString(m);
      DigitsValueOfNatToString(n);
    }
  }
}
