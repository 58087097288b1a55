/** The handful of JavaScript string operations the pages rely on: `trim`,
    `toLowerCase`, `split`, `includes`, `padStart`, decimal printing of numbers, and the
    decimal prefix read by `parseInt` and `parseFloat`. */
module Text {
  import opened Wrappers

  /** The characters JavaScript's `trim` removes: white space and line terminators. */
  predicate IsWhitespace(c: char)
  {
    || c == ' ' || c == '\t' || c == '\n' || c == '\r' || c == '\U{000B}' || c == '\U{000C}'
    || c == '\U{00A0}' || c == '\U{1680}' || ('\U{2000}' <= c <= '\U{200A}')
    || c == '\U{2028}' || c == '\U{2029}' || c == '\U{202F}' || c == '\U{205F}'
    || c == '\U{3000}' || c == '\U{FEFF}'
  }

  predicate AllWhitespace(s: string)
  {
    forall i :: 0 <= i < |s| ==> IsWhitespace(s[i])
  }

  /** `s.trimStart()`. */
  function TrimStart(s: string): (r: string)
    ensures |r| <= |s| && r == s[|s| - |r|..]
    ensures r == [] <==> AllWhitespace(s)
    ensures r != [] ==> !IsWhitespace(r[0])
    ensures AllWhitespace(s[..|s| - |r|])
  {
    if s == [] || !IsWhitespace(s[0]) then s
    else
      var r := TrimStart(s[1..]);
      assert s[..|s| - |r|] == [s[0]] + s[1..][..|s[1..]| - |r|];
      r
  }

  /** `s.trimEnd()`. */
  function TrimEnd(s: string): (r: string)
    ensures r <= s
    ensures r == [] <==> AllWhitespace(s)
    ensures r != [] ==> !IsWhitespace(r[|r| - 1])
    ensures AllWhitespace(s[|r|..])
  {
    if s == [] || !IsWhitespace(s[|s| - 1]) then s
    else
      var r := TrimEnd(s[..|s| - 1]);
      assert s[|r|..] == s[..|s| - 1][|r|..] + [s[|s| - 1]];
      r
  }

  lemma AllWhitespaceConcat(a: string, b: string)
    ensures AllWhitespace(a + b) <==> AllWhitespace(a) && AllWhitespace(b)
  {
    if AllWhitespace(a + b) {
      forall i | 0 <= i < |a| ensures IsWhitespace(a[i]) {
        assert a[i] == (a + b)[i];
      }
      forall i | 0 <= i < |b| ensures IsWhitespace(b[i]) {
        assert b[i] == (a + b)[|a| + i];
      }
    }
  }

  /** `s.trim()`: white space removed at both ends; empty exactly when `s` is blank. The
      result is a slice of `s` with only white space on either side of it. */
  function Trim(s: string): (r: string)
    ensures |r| <= |s|
    ensures r == [] <==> AllWhitespace(s)
    ensures r != [] ==> !IsWhitespace(r[0]) && !IsWhitespace(r[|r| - 1])
    ensures exists a, b :: 0 <= a <= b <= |s| && r == s[a..b] && AllWhitespace(s[..a]) && AllWhitespace(s[b..])
  {
    var t := TrimStart(s);
    assert s == s[..|s| - |t|] + t;
    AllWhitespaceConcat(s[..|s| - |t|], t);
    var r := TrimEnd(t);
    assert r != [] ==> r[0] == t[0];
    TrimSlice(s, t, r);
    r
  }

  /** What `trimEnd` keeps of what `trimStart` keeps is a slice of the text between two
      runs of white space. */
  lemma TrimSlice(s: string, t: string, r: string)
    requires |t| <= |s| && t == s[|s| - |t|..] && AllWhitespace(s[..|s| - |t|])
    requires r <= t && AllWhitespace(t[|r|..])
    ensures exists a, b :: 0 <= a <= b <= |s| && r == s[a..b] && AllWhitespace(s[..a]) && AllWhitespace(s[b..])
  {
    var a := |s| - |t|;
    var b := a + |r|;
    assert r == s[a..b];
    assert s[b..] == t[|r|..];
  }

  /** `toLowerCase` on one character; only the ASCII letters are mapped. */
  function LowerChar(c: char): char
  {
    if 'A' <= c <= 'Z' then (c as int + 32) as char else c
  }

  /** `s.toLowerCase()` (ASCII letters only). */
  function Lower(s: string): (r: string)
    ensures |r| == |s|
    ensures forall i :: 0 <= i < |s| ==> r[i] == LowerChar(s[i])
  {
    seq(|s|, i requires 0 <= i < |s| => LowerChar(s[i]))
  }

  /** `s.includes(t)`. */
  function Contains(s: string, t: string): bool
  {
    if t <= s then true
    else if s == [] then false
    else Contains(s[1..], t)
  }

  /** `t` occurs in `s` starting at index `i`. */
  ghost predicate OccursAt(s: string, t: string, i: int)
  {
    0 <= i && i + |t| <= |s| && s[i..i + |t|] == t
  }

  /** An occurrence at 0 is a prefix; an occurrence further on is one in the tail. */
  lemma OccursShift(s: string, t: string, i: int)
    requires s != [] && OccursAt(s, t, i)
    ensures i == 0 ==> t <= s
    ensures i > 0 ==> OccursAt(s[1..], t, i - 1)
  {
    if i == 0 {
      assert s[..|t|] == t;
    } else {
      assert s[i..i + |t|] == s[1..][i - 1..i - 1 + |t|];
    }
  }

  /** `includes` holds exactly when `t` occurs in `s` at some position. */
  lemma {:induction false} ContainsIff(s: string, t: string)
    ensures Contains(s, t) <==> exists i :: OccursAt(s, t, i)
  {
    if t <= s {
      assert OccursAt(s, t, 0);
    } else if s != [] {
      ContainsIff(s[1..], t);
      if Contains(s[1..], t) {
        var i :| OccursAt(s[1..], t, i);
        assert s[i + 1..i + 1 + |t|] == s[1..][i..i + |t|];
        assert OccursAt(s, t, i + 1);
      } else {
        forall i | OccursAt(s, t, i) ensures false {
          OccursShift(s, t, i);
        }
      }
    }
  }

  /** Number of occurrences of `c` in `s`. */
  function Occurrences(s: string, c: char): nat
  {
    if s == [] then 0 else (if s[0] == c then 1 else 0) + Occurrences(s[1..], c)
  }

  /** `s.split(sep)` for a one-character separator: cut at every occurrence, no quoting. */
  function Split(s: string, sep: char): (r: seq<string>)
    ensures |r| == Occurrences(s, sep) + 1
    ensures forall k :: 0 <= k < |r| ==> sep !in r[k]
  {
    if s == [] then [""]
    else
      var rest := Split(s[1..], sep);
      if s[0] == sep then [""] + rest
      else
        assert sep !in [s[0]] + rest[0];
        [[s[0]] + rest[0]] + rest[1..]
  }

  /** Text without the separator is one piece. */
  lemma {:induction false} SplitNone(s: string, sep: char)
    requires sep !in s
    ensures Split(s, sep) == [s]
  {
    if s != [] {
      SplitNone(s[1..], sep);
      assert [s[0]] + s[1..] == s;
    }
  }

  /** Cutting at the first separator: the text before it is the first piece. */
  lemma {:induction false} SplitAt(a: string, b: string, sep: char)
    requires sep !in a
    ensures Split(a + [sep] + b, sep) == [a] + Split(b, sep)
  {
    var s := a + [sep] + b;
    if a == [] {
      assert s[1..] == b;
    } else {
      assert s[1..] == a[1..] + [sep] + b;
      SplitAt(a[1..], b, sep);
      assert [a[0]] + a[1..] == a;
    }
  }

  /** `parts.join(sep)`. */
  function Join(parts: seq<string>, sep: char): string
  {
    if parts == [] then ""
    else if |parts| == 1 then parts[0]
    else parts[0] + [sep] + Join(parts[1..], sep)
  }

  /** Splitting loses nothing: joining the pieces with the separator gives the text back. */
  lemma {:induction false} JoinSplit(s: string, sep: char)
    ensures Join(Split(s, sep), sep) == s
  {
    if s != [] {
      JoinSplit(s[1..], sep);
      var rest := Split(s[1..], sep);
      if s[0] == sep {
        assert Split(s, sep) == [""] + rest;
        assert ([""] + rest)[1..] == rest;
      } else {
        var r := [[s[0]] + rest[0]] + rest[1..];
        assert Split(s, sep) == r;
        if |rest| == 1 {
          assert s == [s[0]] + rest[0];
        } else {
          assert r[1..] == rest[1..];
          assert Join(rest, sep) == rest[0] + [sep] + Join(rest[1..], sep);
          assert s == [s[0]] + s[1..];
        }
      }
    }
  }

  predicate IsDigit(c: char)
  {
    '0' <= c <= '9'
  }

  predicate AllDigits(s: string)
  {
    forall i :: 0 <= i < |s| ==> IsDigit(s[i])
  }

  /** Two digit groups joined by a non-digit separator split back into the two groups. */
  lemma SplitDigitGroups(a: string, b: string, sep: char)
    requires AllDigits(a) && AllDigits(b) && !IsDigit(sep)
    ensures Split(a + [sep] + b, sep) == [a, b]
  {
    forall i | 0 <= i < |a| ensures a[i] != sep {
      assert IsDigit(a[i]);
    }
    forall i | 0 <= i < |b| ensures b[i] != sep {
      assert IsDigit(b[i]);
    }
    SplitAt(a, b, sep);
    SplitNone(b, sep);
  }

  function DigitChar(d: nat): (c: char)
    requires d < 10
    ensures IsDigit(c)
  {
    ('0' as int + d) as char
  }

  /** The value of a string of decimal digits. */
  function DigitsValue(s: string): nat
    requires AllDigits(s)
  {
    if s == [] then 0
    else DigitsValue(s[..|s| - 1]) * 10 + (s[|s| - 1] as int - '0' as int)
  }

  /** `n.toString()` for a natural number: its shortest decimal form. */
  function NatToString(n: nat): (r: string)
    ensures |r| >= 1 && AllDigits(r)
    ensures r[0] == '0' ==> n == 0
  {
    if n < 10 then [DigitChar(n)] else NatToString(n / 10) + [DigitChar(n % 10)]
  }

  /** Reading the decimal text of `n` gives `n` back. */
  lemma {:induction false} NatToStringValue(n: nat)
    ensures DigitsValue(NatToString(n)) == n
  {
    if n >= 10 {
      NatToStringValue(n / 10);
      var s := NatToString(n);
      assert s[..|s| - 1] == NatToString(n / 10);
    }
  }

  /** `i.toString()` for an integer. */
  function IntToString(i: int): (r: string)
    ensures |r| >= 1
  {
    if i < 0 then "-" + NatToString(-i) else NatToString(i)
  }

  /** The longest prefix of decimal digits. */
  function LeadingDigits(s: string): (r: string)
    ensures r <= s && AllDigits(r)
    ensures |r| < |s| ==> !IsDigit(s[|r|])
  {
    if s == [] || !IsDigit(s[0]) then ""
    else
      var r := LeadingDigits(s[1..]);
      assert [s[0]] + r <= s;
      [s[0]] + r
  }

  /** Whether a number starts with a minus sign, and what follows its sign, if any. */
  function SignOf(s: string): (bool, string)
  {
    if s != [] && s[0] == '-' then (true, s[1..])
    else if s != [] && s[0] == '+' then (false, s[1..])
    else (false, s)
  }

  /** `parseInt(s)` in base 10: leading white space, an optional sign, then the longest
      run of digits; `None` stands for NaN, when there is no digit. */
  function ParseInt(s: string): Option<int>
  {
    var (negative, rest) := SignOf(TrimStart(s));
    var digits := LeadingDigits(rest);
    if digits == [] then None
    else Some(if negative then -(DigitsValue(digits) as int) else DigitsValue(digits))
  }

  /** The value of the digits after a decimal point: "25" is 0.25. */
  function FractionValue(s: string): real
    requires AllDigits(s)
  {
    if s == [] then 0.0 else ((s[0] as int - '0' as int) as real + FractionValue(s[1..])) / 10.0
  }

  /** `parseFloat(s)` for plain decimals: leading white space, an optional sign, digits,
      and an optional fraction; `None` stands for NaN, when there is no digit. */
  function ParseFloat(s: string): Option<real>
  {
    var (negative, rest) := SignOf(TrimStart(s));
    var whole := LeadingDigits(rest);
    var after := rest[|whole|..];
    var frac := if after != [] && after[0] == '.' then LeadingDigits(after[1..]) else "";
    if whole == [] && frac == [] then None
    else
      var magnitude := DigitsValue(whole) as real + FractionValue(frac);
      Some(if negative then -magnitude else magnitude)
  }

  /** Text that starts with a digit is left alone by `trimStart`, and has no sign. */
  lemma DigitStart(s: string)
    requires s != [] && IsDigit(s[0])
    ensures TrimStart(s) == s && SignOf(s) == (false, s)
  {
  }

  /** The decimal text of a natural number is all digits, and reads back as that number. */
  lemma NatToStringDigits(n: nat)
    ensures LeadingDigits(NatToString(n)) == NatToString(n)
    ensures DigitsValue(NatToString(n)) == n
  {
    var d := NatToString(n);
    NatToStringValue(n);
  }

  /** A run of digits reads as its value. */
  lemma ParseIntDigits(d: string)
    requires d != [] && IsDigit(d[0]) && LeadingDigits(d) == d
    ensures ParseInt(d) == Some(DigitsValue(d) as int)
  {
    DigitStart(d);
  }

  /** A run of digits after a minus sign reads as the opposite of its value. */
  lemma ParseIntNegated(d: string)
    requires d != [] && LeadingDigits(d) == d
    ensures ParseInt(['-'] + d) == Some(-(DigitsValue(d) as int))
  {
    var s := ['-'] + d;
    assert s != [] && !IsWhitespace(s[0]);
    assert TrimStart(s) == s;
    assert s[1..] == d;
    assert SignOf(s) == (true, d);
  }

  /** `parseInt` reads back what `toString` prints. */
  lemma ParseIntToString(i: int)
    ensures ParseInt(IntToString(i)) == Some(i)
  {
    var n: nat := if i < 0 then -i else i;
    NatToStringDigits(n);
    if i < 0 {
      assert IntToString(i) == ['-'] + NatToString(n);
      ParseIntNegated(NatToString(n));
    } else {
      ParseIntDigits(NatToString(n));
    }
  }

  /** `parseFloat` reads back the decimal text of a natural number. */
  lemma ParseFloatNat(n: nat)
    ensures ParseFloat(NatToString(n)) == Some(n as real)
  {
    var d := NatToString(n);
    NatToStringDigits(n);
    DigitStart(d);
    var (negative, rest) := SignOf(TrimStart(d));
    assert !negative && rest == d;
    var whole := LeadingDigits(rest);
    assert whole == d && rest[|whole|..] == [];
    assert FractionValue("") == 0.0;
  }

  /** `s.padStart(2, '0')`. */
  function PadStart2(s: string): (r: string)
    ensures |r| >= 2
    ensures |s| >= 2 ==> r == s
    ensures |s| < 2 ==> r[|r| - |s|..] == s && forall i :: 0 <= i < |r| - |s| ==> r[i] == '0'
  {
    if |s| >= 2 then s else if |s| == 1 then "0" + s else "00"
  }

  /** The decimal text of a number below 100, padded to two places, is two digits that
      read back as the number. */
  lemma PadStart2Value(n: nat)
    requires n < 100
    ensures |PadStart2(NatToString(n))| == 2
    ensures AllDigits(PadStart2(NatToString(n)))
    ensures DigitsValue(PadStart2(NatToString(n))) == n
  {
    NatToStringValue(n);
    var d := NatToString(n);
    if n < 10 {
      var r := "0" + d;
      assert r[..1] == "0";
      assert DigitsValue(r[..1]) == 0;
    } else {
      assert NatToString(n / 10) == [DigitChar(n / 10)];
    }
  }
}
