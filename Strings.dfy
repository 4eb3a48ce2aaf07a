/** The string built-ins of JavaScript that the coverage engine relies on, written out over
    `seq<char>`: decimal rendering of integers (`${n}` and `toLocaleString()`),
    `Number.prototype.toFixed(2)`, `Number()` of a digit string, `String.prototype.split`
    with a one-character separator, `Array.prototype.join`, `startsWith`, `substring`,
    `indexOf` and `replace` with a string pattern. */
module Strings {

  import opened Wrappers

  predicate IsDigit(c: char) {
    '0' <= c <= '9'
  }

  predicate IsDigits(s: string) {
    forall i :: 0 <= i < |s| ==> IsDigit(s[i])
  }

  function DigitChar(d: nat): (c: char)
    requires d < 10
    ensures IsDigit(c)
  {
    ('0' as int + d) as char
  }

  function DigitValue(c: char): (d: nat)
    requires IsDigit(c)
    ensures d < 10 && DigitChar(d) == c
  {
    c as int - '0' as int
  }

  /** `${n}` for a non-negative integer: its decimal digits, no leading zero. */
  function NatToString(n: nat): (s: string)
    ensures |s| > 0 && IsDigits(s)
    ensures s[0] == '0' ==> n == 0
    decreases n
  {
    if n < 10 then [DigitChar(n)] else NatToString(n / 10) + [DigitChar(n % 10)]
  }

  /** `Number(s)` for a string of decimal digits (`Number("")` is 0). */
  function ParseNat(s: string): nat
    requires IsDigits(s)
    decreases |s|
  {
    if s == [] then 0 else ParseNat(s[..|s| - 1]) * 10 + DigitValue(s[|s| - 1])
  }

  /** Reading back a rendered integer gives the integer: rendering loses nothing. */
  lemma {:induction false} ParseNatToString(n: nat)
    ensures ParseNat(NatToString(n)) == n
  {
    if n >= 10 {
      var s := NatToString(n / 10);
      ParseNatToString(n / 10);
      assert NatToString(n) == s + [DigitChar(n % 10)];
      assert (s + [DigitChar(n % 10)])[..|s|] == s;
    }
  }

  lemma NatToStringInjective(m: nat, n: nat)
    requires NatToString(m) == NatToString(n)
    ensures m == n
  {
    ParseNatToString(m);
    ParseNatToString(n);
  }

  // ---------------------------------------------------------------------------
  // Number.prototype.toFixed(2), over the exact real value

  /** The integer `n` that toFixed(2) picks: `n / 100 - x` as close to zero as possible,
      the larger one on a tie. */
  function Hundredths(x: real): (n: int)
    requires x >= 0.0
    ensures n >= 0
    ensures n as real - 0.5 <= x * 100.0 < n as real + 0.5
  {
    (x * 100.0 + 0.5).Floor
  }

  function FixedOfHundredths(n: nat): string {
    NatToString(n / 100) + "." + [DigitChar(n / 10 % 10), DigitChar(n % 10)]
  }

  /** `x.toFixed(2)`: a minus sign for a negative value, then the integer part, a point and
      exactly two decimals. */
  function ToFixed2(x: real): string
    decreases if x < 0.0 then 1 else 0
  {
    if x < 0.0 then "-" + ToFixed2(-x) else FixedOfHundredths(Hundredths(x))
  }

  /** toFixed(2) of a value within half a hundredth of `n` hundredths is `n`'s text. */
  lemma Fixed2Of(x: real, n: nat, text: string)
    requires x >= 0.0 && n as real - 0.5 <= x * 100.0 < n as real + 0.5
    requires FixedOfHundredths(n) == text
    ensures ToFixed2(x) == text
  {
    assert Hundredths(x) == n;
  }

  /** The number a two-decimal text stands for, in hundredths; `None` if it is not of the
      form digits, point, two digits. */
  function ParseFixed2(s: string): Option<nat> {
    if |s| >= 4 && s[|s| - 3] == '.' && IsDigits(s[..|s| - 3]) && IsDigit(s[|s| - 2]) && IsDigit(s[|s| - 1])
    then Some(ParseNat(s[..|s| - 3]) * 100 + DigitValue(s[|s| - 2]) * 10 + DigitValue(s[|s| - 1]))
    else None
  }

  /** The text of toFixed(2) reads back as the rounded value: no digit is lost or invented. */
  lemma ParseToFixed2(x: real)
    requires x >= 0.0
    ensures ParseFixed2(ToFixed2(x)) == Some(Hundredths(x))
  {
    var n := Hundredths(x);
    var ip := NatToString(n / 100);
    var d1, d0 := DigitChar(n / 10 % 10), DigitChar(n % 10);
    var s := ToFixed2(x);
    assert s == ip + "." + [d1, d0];
    assert s[..|s| - 3] == ip;
    assert s[|s| - 3] == '.' && s[|s| - 2] == d1 && s[|s| - 1] == d0;
    ParseNatToString(n / 100);
    DecimalSplit(n);
  }

  lemma DecimalSplit(n: nat)
    ensures n / 100 * 100 + n / 10 % 10 * 10 + n % 10 == n
  {
    var q, r := n / 100, n % 100;
    assert n == 100 * q + r;
    assert n / 10 == 10 * q + r / 10;
    assert n / 10 % 10 == r / 10;
    assert n % 10 == r % 10;
  }

  /** The two-decimal text is "100.00" exactly when the value lies in [99.995, 100.005). */
  lemma ToFixed2Is100(x: real)
    requires x >= 0.0
    ensures ToFixed2(x) == "100.00" <==> 99.995 <= x < 100.005
  {
    var n := Hundredths(x);
    if ToFixed2(x) == "100.00" {
      ParseToFixed2(x);
      assert ParseFixed2("100.00") == Some(10000) by {
        assert "100.00"[..3] == "100";
        assert ParseNat("100") == 100 by {
          assert "100"[..2] == "10";
          assert "10"[..1] == "1";
        }
      }
    }
    if 99.995 <= x < 100.005 {
      assert n == 10000;
    }
  }

  // ---------------------------------------------------------------------------
  // Number.prototype.toLocaleString() for a non-negative integer (en-US grouping)

  function Pad3(m: nat): (s: string)
    requires m < 1000
    ensures |s| == 3 && IsDigits(s)
  {
    [DigitChar(m / 100), DigitChar(m / 10 % 10), DigitChar(m % 10)]
  }

  /** Decimal digits in groups of three separated by commas. */
  function LocaleString(n: nat): string
    decreases n
  {
    if n < 1000 then NatToString(n) else LocaleString(n / 1000) + "," + Pad3(n % 1000)
  }

  function RemoveChar(s: string, c: char): (r: string)
    ensures c !in r
    decreases |s|
  {
    if s == [] then [] else (if s[0] == c then [] else [s[0]]) + RemoveChar(s[1..], c)
  }

  lemma {:induction false} RemoveCharConcat(a: string, b: string, c: char)
    ensures RemoveChar(a + b, c) == RemoveChar(a, c) + RemoveChar(b, c)
    decreases |a|
  {
    if a == [] {
      assert a + b == b;
    } else {
      RemoveCharConcat(a[1..], b, c);
      assert (a + b)[0] == a[0] && (a + b)[1..] == a[1..] + b;
      var first := if a[0] == c then [] else [a[0]];
      calc {
        RemoveChar(a + b, c);
        first + RemoveChar(a[1..] + b, c);
        first + (RemoveChar(a[1..], c) + RemoveChar(b, c));
        (first + RemoveChar(a[1..], c)) + RemoveChar(b, c);
      }
    }
  }

  lemma RemoveCharAbsent(s: string, c: char)
    requires c !in s
    ensures RemoveChar(s, c) == s
    decreases |s|
  {
    if s != [] {
      RemoveCharAbsent(s[1..], c);
    }
  }

  lemma DigitsHaveNoComma(s: string)
    requires IsDigits(s)
    ensures ',' !in s
  {
    forall i | 0 <= i < |s| ensures s[i] != ',' {
      assert IsDigit(s[i]);
    }
  }

  /** For n >= 1000 the digits of n are the digits of n / 1000 followed by the last three. */
  lemma NatToStringThousands(n: nat)
    requires n >= 1000
    ensures NatToString(n) == NatToString(n / 1000) + Pad3(n % 1000)
  {
    var q, r := n / 1000, n % 1000;
    ThousandsDigits(n);
    calc {
      NatToString(n);
      NatToString(n / 10) + [DigitChar(n % 10)];
      NatToString(n / 100) + [DigitChar(n / 10 % 10)] + [DigitChar(n % 10)];
      NatToString(q) + [DigitChar(r / 100)] + [DigitChar(r / 10 % 10)] + [DigitChar(r % 10)];
      NatToString(q) + Pad3(r);
    }
  }

  /** The last three digits of n are those of n % 1000, the ones before them those of n / 1000. */
  lemma ThousandsDigits(n: nat)
    requires n >= 1000
    ensures n / 10 >= 10 && n / 100 >= 10 && n / 10 / 10 == n / 100 && n / 100 / 10 == n / 1000
    ensures n / 100 % 10 == n % 1000 / 100 && n / 10 % 10 == n % 1000 / 10 % 10 && n % 10 == n % 1000 % 10
  {
    var q, r := n / 1000, n % 1000;
    assert n == 1000 * q + r;
    assert n / 10 == 100 * q + r / 10;
    assert n / 100 == 10 * q + r / 100;
  }

  /** Dropping the group separators from toLocaleString() gives the plain digits. */
  lemma {:induction false} LocaleStringDigits(n: nat)
    ensures RemoveChar(LocaleString(n), ',') == NatToString(n)
    decreases n
  {
    if n < 1000 {
      DigitsHaveNoComma(NatToString(n));
      RemoveCharAbsent(NatToString(n), ',');
    } else {
      LocaleStringDigits(n / 1000);
      DropSeparator(LocaleString(n / 1000), Pad3(n % 1000), NatToString(n / 1000));
      NatToStringThousands(n);
    }
  }

  /** Dropping the commas from `head,tail` with a digits-only tail. */
  lemma DropSeparator(head: string, tail: string, digits: string)
    requires RemoveChar(head, ',') == digits && IsDigits(tail)
    ensures RemoveChar(head + "," + tail, ',') == digits + tail
  {
    var withComma := head + ",";
    assert RemoveChar(",", ',') == [] by { assert ","[1..] == []; }
    RemoveCharConcat(head, ",", ',');
    assert RemoveChar(withComma, ',') == digits;
    DigitsHaveNoComma(tail);
    RemoveCharAbsent(tail, ',');
    RemoveCharConcat(withComma, tail, ',');
  }

  // ---------------------------------------------------------------------------
  // split, join and friends

  /** `s.split(sep)`: the pieces between separators; "" splits into [""]. */
  function Split(s: string, sep: char): (parts: seq<string>)
    ensures |parts| > 0
    decreases |s|
  {
    if s == [] then [""]
    else
      var rest := Split(s[1..], sep);
      if s[0] == sep then [""] + rest else [[s[0]] + rest[0]] + rest[1..]
  }

  function Count(s: string, c: char): nat
    decreases |s|
  {
    if s == [] then 0 else (if s[0] == c then 1 else 0) + Count(s[1..], c)
  }

  /** `parts.join(sep)`. */
  function Join(parts: seq<string>, sep: string): string
    decreases |parts|
  {
    if parts == [] then ""
    else if |parts| == 1 then parts[0]
    else parts[0] + sep + Join(parts[1..], sep)
  }

  /** `s.split(sep).length` is one more than the number of separators in `s`. */
  lemma {:induction false} SplitLength(s: string, sep: char)
    ensures |Split(s, sep)| == Count(s, sep) + 1
    decreases |s|
  {
    if s != [] {
      SplitLength(s[1..], sep);
    }
  }

  /** Splitting loses nothing: joining the pieces with the separator gives `s` back. */
  lemma {:induction false} JoinSplit(s: string, sep: char)
    ensures Join(Split(s, sep), [sep]) == s
    decreases |s|
  {
    if s != [] {
      var rest := Split(s[1..], sep);
      JoinSplit(s[1..], sep);
      if s[0] == sep {
        assert Split(s, sep) == [""] + rest;
        assert ([""] + rest)[1..] == rest;
      } else {
        var parts := Split(s, sep);
        assert parts == [[s[0]] + rest[0]] + rest[1..];
        if |rest| == 1 {
          assert parts == [[s[0]] + rest[0]];
        } else {
          assert parts[1..] == rest[1..];
          assert Join(rest, [sep]) == rest[0] + [sep] + Join(rest[1..], [sep]);
        }
      }
    }
  }

  /** No piece of a split contains the separator. */
  lemma {:induction false} SplitPiecesFree(s: string, sep: char)
    ensures forall i :: 0 <= i < |Split(s, sep)| ==> sep !in Split(s, sep)[i]
    decreases |s|
  {
    if s != [] {
      SplitPiecesFree(s[1..], sep);
    }
  }

  lemma {:induction false} SplitNoSep(a: string, sep: char)
    requires sep !in a
    ensures Split(a, sep) == [a]
    decreases |a|
  {
    if a != [] {
      assert a[0] in a;
      SplitNoSep(a[1..], sep);
      assert [a[0]] + a[1..] == a;
    }
  }

  /** The text before the first separator is the first piece. */
  lemma {:induction false} SplitConcat(a: string, sep: char, b: string)
    requires sep !in a
    ensures Split(a + [sep] + b, sep) == [a] + Split(b, sep)
    decreases |a|
  {
    if a == [] {
      assert [sep] + b == a + [sep] + b;
      assert ([sep] + b)[1..] == b;
    } else {
      assert (a + [sep] + b)[1..] == a[1..] + [sep] + b;
      SplitConcat(a[1..], sep, b);
      assert [a[0]] + a[1..] == a;
    }
  }

  predicate StartsWith(s: string, prefix: string) {
    |prefix| <= |s| && s[..|prefix|] == prefix
  }

  /** `s.substring(k)`, which clamps a start past the end to the empty string. */
  function Substring(s: string, k: nat): string {
    if k <= |s| then s[k..] else ""
  }

  /** `s.indexOf(c)`: the first position of `c`, or -1. */
  function IndexOf(s: string, c: char): (i: int)
    ensures -1 <= i < |s|
    ensures i == -1 <==> c !in s
    ensures i >= 0 ==> s[i] == c && c !in s[..i]
    decreases |s|
  {
    if s == [] then -1
    else if s[0] == c then 0
    else
      var j := IndexOf(s[1..], c);
      assert j >= 0 ==> s[..j + 1] == [s[0]] + s[1..][..j];
      if j == -1 then -1 else j + 1
  }

  /** `s.replace(pattern, '')` with a string pattern: only the first occurrence goes. */
  function RemoveFirst(s: string, pattern: string): string
    decreases |s|
  {
    if |s| < |pattern| then s
    else if s[..|pattern|] == pattern then s[|pattern|..]
    else [s[0]] + RemoveFirst(s[1..], pattern)
  }

  lemma RemoveFirstLeading(s: string, pattern: string)
    requires StartsWith(s, pattern)
    ensures RemoveFirst(s, pattern) == s[|pattern|..]
  {
  }
}
