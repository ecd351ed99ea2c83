/** The string operations the source relies on: `toLowerCase`, `includes`,
    `trim() !== ''`, `replace(/\s+/g, '.')`, `String(n)` of a non-negative
    integer, and `slice(-k)`. */
module Text {
  import Dates

  /** `\s` of JavaScript regular expressions, which is also the set `trim` removes. */
  predicate IsSpace(c: char)
  {
    c == ' ' || c == '\t' || c == '\n' || c == '\r' || c == '\U{000B}' || c == '\U{000C}' ||
    c == '\U{00A0}' || c == '\U{1680}' || ('\U{2000}' <= c <= '\U{200A}') ||
    c == '\U{2028}' || c == '\U{2029}' || c == '\U{202F}' || c == '\U{205F}' ||
    c == '\U{3000}' || c == '\U{FEFF}'
  }

  /** `toLowerCase` on one character: ASCII and Latin-1 capitals, and the
      Turkish capitals outside Latin-1. Capital dotted I becomes two characters. */
  function LowerChar(c: char): (r: string)
    ensures 1 <= |r| <= 2
  {
    if 'A' <= c <= 'Z' then [(c as int + 32) as char]
    else if 'À' <= c <= 'Þ' && c != '×' then [(c as int + 32) as char]
    else if c == 'Ğ' then "ğ"
    else if c == 'Ş' then "ş"
    else if c == 'İ' then "i̇"
    else [c]
  }

  function ToLower(s: string): (r: string)
    ensures |s| <= |r| <= 2 * |s|
  {
    if s == [] then [] else LowerChar(s[0]) + ToLower(s[1..])
  }

  lemma {:induction false} ToLowerAppend(a: string, b: string)
    ensures ToLower(a + b) == ToLower(a) + ToLower(b)
  {
    if a == [] {
      assert a + b == b;
    } else {
      assert (a + b)[1..] == a[1..] + b;
      ToLowerAppend(a[1..], b);
    }
  }

  /** Lower-case ASCII letters, digits and punctuation are left alone. */
  lemma {:induction false} ToLowerOfLower(s: string)
    requires forall i :: 0 <= i < |s| ==> s[i] < '\U{0080}' && !('A' <= s[i] <= 'Z')
    ensures ToLower(s) == s
  {
    if s != [] {
      ToLowerOfLower(s[1..]);
    }
  }

  /** `s.includes(t)` */
  predicate Contains(s: string, t: string)
    decreases |s|
  {
    |t| <= |s| && (s[..|t|] == t || (s != [] && Contains(s[1..], t)))
  }

  /** `includes` finds `t` wherever it starts. */
  lemma {:induction false} ContainsAt(s: string, t: string, i: nat)
    requires i + |t| <= |s| && s[i..i + |t|] == t
    ensures Contains(s, t)
  {
    if i > 0 {
      assert s[1..][i - 1..i - 1 + |t|] == t;
      ContainsAt(s[1..], t, i - 1);
    }
  }

  /** ... and only where it occurs. */
  lemma {:induction false} ContainsWitness(s: string, t: string) returns (i: nat)
    requires Contains(s, t)
    ensures i + |t| <= |s| && s[i..i + |t|] == t
    decreases |s|
  {
    if s[..|t|] == t {
      i := 0;
    } else {
      var j := ContainsWitness(s[1..], t);
      assert s[j + 1..j + 1 + |t|] == s[1..][j..j + |t|];
      i := j + 1;
    }
  }

  lemma ContainsEmpty(s: string)
    ensures Contains(s, "")
  {
  }

  /** `s.trim() === ''` */
  predicate IsBlank(s: string)
  {
    forall i :: 0 <= i < |s| ==> IsSpace(s[i])
  }

  function DropSpaces(s: string): (r: string)
    ensures |r| <= |s|
    ensures r == [] || !IsSpace(r[0])
    ensures r == s[|s| - |r|..]
  {
    if s != [] && IsSpace(s[0]) then DropSpaces(s[1..]) else s
  }

  /** `s.replace(/\s+/g, '.')`: every maximal run of white space becomes one dot. */
  function DotSpaceRuns(s: string): (r: string)
    ensures forall i :: 0 <= i < |r| ==> !IsSpace(r[i])
    ensures |r| <= |s|
    decreases |s|
  {
    if s == [] then []
    else if IsSpace(s[0]) then "." + DotSpaceRuns(DropSpaces(s[1..]))
    else [s[0]] + DotSpaceRuns(s[1..])
  }

  /** Text without white space is unchanged by `DotSpaceRuns`. */
  lemma {:induction false} DotSpaceRunsNoSpace(s: string)
    requires forall i :: 0 <= i < |s| ==> !IsSpace(s[i])
    ensures DotSpaceRuns(s) == s
  {
    if s != [] {
      DotSpaceRunsNoSpace(s[1..]);
    }
  }

  /** `String(n)` for a non-negative integer: decimal digits, no leading zero. */
  function NatToString(n: nat): (s: string)
    ensures |s| >= 1
    ensures forall i :: 0 <= i < |s| ==> Dates.IsDigit(s[i])
    ensures |s| > 1 ==> s[0] != '0'
  {
    if n < 10 then [Dates.DigitChar(n)] else NatToString(n / 10) + [Dates.DigitChar(n % 10)]
  }

  /** Reading back the digits of `String(n)` gives `n`. */
  lemma {:induction false} NatToStringValue(n: nat)
    ensures Dates.DigitsValue(NatToString(n)) == n
  {
    if n >= 10 {
      NatToStringValue(n / 10);
      var s := NatToString(n);
      assert s[..|s| - 1] == NatToString(n / 10);
      Dates.DigitCharValue(n % 10);
      assert Dates.DigitsValue(s) == 10 * (n / 10) + n % 10;
    }
  }

  /** `s.slice(-k)` for `k > 0`: the last `k` characters, or all of a shorter `s`. */
  function Last(s: string, k: nat): (r: string)
    ensures |r| == if |s| < k then |s| else k
    ensures r == s[|s| - |r|..]
  {
    if |s| <= k then s else s[|s| - k..]
  }

  lemma ModUnique(n: int, m: int, a: int, b: int)
    requires m > 0 && n == m * a + b && 0 <= b < m
    ensures n % m == b && n / m == a
  {
    var q, r := n / m, n % m;
    assert m * q + r == n;
    assert m * (q - a) == b - r;
    if q - a >= 1 {
      MulAtLeast(m, q - a);
    } else if q - a <= -1 {
      assert m * (a - q) == r - b;
      MulAtLeast(m, a - q);
    }
  }

  lemma {:induction false} MulAtLeast(m: int, k: int)
    requires m > 0 && k >= 1
    ensures m * k >= m
  {
    if k > 1 {
      MulAtLeast(m, k - 1);
      assert m * k == m * (k - 1) + m;
    }
  }

  lemma SplitAt(s: string, i: nat)
    requires i <= |s|
    ensures s == s[..i] + s[i..]
  {
  }

  lemma ShiftDigit(x: int, p: int, y: int, d: int)
    ensures 10 * (p * x + y) + d == (10 * p) * x + (10 * y + d)
  {
    assert 10 * (p * x) == (10 * p) * x;
  }

  lemma {:induction false} DigitsValueAppend(a: string, b: string)
    requires forall i :: 0 <= i < |a| ==> Dates.IsDigit(a[i])
    requires forall i :: 0 <= i < |b| ==> Dates.IsDigit(b[i])
    ensures Dates.DigitsValue(a + b) == Dates.Pow10(|b|) * Dates.DigitsValue(a) + Dates.DigitsValue(b)
  {
    if b == [] {
      assert a + b == a;
    } else {
      var init, c := b[..|b| - 1], b[|b| - 1];
      DigitsValueAppend(a, init);
      var ab := a + b;
      assert ab[..|ab| - 1] == a + init;
      assert ab[|ab| - 1] == c;
      var x, y, p, d := Dates.DigitsValue(a), Dates.DigitsValue(init), Dates.Pow10(|init|), Dates.DigitValue(c);
      assert Dates.DigitsValue(a + init) == p * x + y;
      assert Dates.DigitsValue(ab) == 10 * (p * x + y) + d;
      assert Dates.DigitsValue(b) == 10 * y + d;
      assert Dates.Pow10(|b|) == 10 * p;
      ShiftDigit(x, p, y, d);
    }
  }

  lemma {:induction false} Pow10Monotone(i: nat, j: nat)
    requires i <= j
    ensures Dates.Pow10(i) <= Dates.Pow10(j)
  {
    if i < j {
      Pow10Monotone(i, j - 1);
    }
  }

  /** The last `k` digits of `String(n)` spell `n` modulo 10^k. */
  lemma LastDigitsValue(n: nat, k: nat)
    ensures Dates.DigitsValue(Last(NatToString(n), k)) == n % Dates.Pow10(k)
  {
    NatToStringValue(n);
    if |NatToString(n)| <= k {
      ShortDigitsValue(NatToString(n), n, k);
    } else {
      LongDigitsValue(NatToString(n), n, k);
    }
  }

  lemma ShortDigitsValue(s: string, n: nat, k: nat)
    requires forall i :: 0 <= i < |s| ==> Dates.IsDigit(s[i])
    requires Dates.DigitsValue(s) == n && |s| <= k
    ensures Dates.DigitsValue(Last(s, k)) == n % Dates.Pow10(k)
  {
    Dates.ValuePad(s);
    Pow10Monotone(|s|, k);
    ModUnique(n, Dates.Pow10(k), 0, n);
  }

  lemma LongDigitsValue(s: string, n: nat, k: nat)
    requires forall i :: 0 <= i < |s| ==> Dates.IsDigit(s[i])
    requires Dates.DigitsValue(s) == n && |s| > k
    ensures Dates.DigitsValue(Last(s, k)) == n % Dates.Pow10(k)
  {
    var r := Last(s, k);
    var head := s[..|s| - k];
    Dates.ValuePad(r);
    SplitAt(s, |s| - k);
    DigitsValueAppend(head, r);
    var h, v := Dates.DigitsValue(head), Dates.DigitsValue(r);
    assert n == Dates.Pow10(k) * h + v;
    ModUnique(n, Dates.Pow10(k), h, v);
  }
}
