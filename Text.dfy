/**
  The few Python string operations the tagger relies on: `str.split(' ')`,
  `str.strip()`, `' '.join(...)`, the substring test `'GRAM' in s` and
  `int(...)` applied to a count field. Strings are sequences of characters.
 */
module Text {
  import opened Wrappers

  /** The characters Python 2's `str.strip()` removes. */
  predicate IsSpace(c: char) {
    c == ' ' || c == '\t' || c == '\n' || c == '\r' || c == '\U{000B}' || c == '\U{000C}'
  }

  /** No whitespace character occurs in `s`. */
  predicate NoSpace(s: string) {
    forall k :: 0 <= k < |s| ==> !IsSpace(s[k])
  }

  // ---------------------------------------------------------------- join, split

  /** `sep.join(parts)`: an empty list joins to the empty string. */
  function Join(parts: seq<string>, sep: char): string
    decreases |parts|
  {
    if |parts| == 0 then ""
    else if |parts| == 1 then parts[0]
    else parts[0] + [sep] + Join(parts[1..], sep)
  }

  /**
    `s.split(sep)` for a one-character separator: every occurrence of `sep`
    cuts, so empty fields are kept and the result is never empty. The two
    postconditions together determine the result (see `SplitJoin`).
   */
  function Split(s: string, sep: char): (r: seq<string>)
    ensures |r| >= 1
    ensures forall i :: 0 <= i < |r| ==> sep !in r[i]
    ensures Join(r, sep) == s
    decreases |s|
  {
    if |s| == 0 then [""]
    else
      var rest := Split(s[1..], sep);
      if s[0] == sep then
        assert [""] + rest == [""] + [rest[0]] + rest[1..];
        [""] + rest
      else
        var r := [[s[0]] + rest[0]] + rest[1..];
        assert Join(r, sep) == s by {
          if |rest| == 1 {
            assert r == [[s[0]] + rest[0]];
          } else {
            assert r[1..] == rest[1..];
            assert Join(rest, sep) == rest[0] + [sep] + Join(rest[1..], sep);
          }
          assert s == [s[0]] + s[1..];
        }
        r
  }

  /** A string without the separator splits into itself alone. */
  lemma {:induction false} SplitNoSep(s: string, sep: char)
    requires sep !in s
    ensures Split(s, sep) == [s]
    decreases |s|
  {
    if |s| > 0 {
      assert sep !in s[1..] by {
        forall k | 0 <= k < |s[1..]| ensures s[1..][k] != sep { assert s[1..][k] == s[k + 1]; }
      }
      SplitNoSep(s[1..], sep);
      assert s == [s[0]] + s[1..];
    }
  }

  /** Splitting at a separator occurrence splits the two sides independently. */
  lemma {:induction false} SplitAppend(a: string, b: string, sep: char)
    ensures Split(a + [sep] + b, sep) == Split(a, sep) + Split(b, sep)
    decreases |a|
  {
    var s := a + [sep] + b;
    if |a| == 0 {
      assert s[1..] == b;
    } else {
      assert s[1..] == a[1..] + [sep] + b;
      SplitAppend(a[1..], b, sep);
    }
  }

  /** The round trip in the other direction: separator-free fields survive `join` then `split`. */
  lemma {:induction false} SplitJoin(parts: seq<string>, sep: char)
    requires |parts| >= 1
    requires forall i :: 0 <= i < |parts| ==> sep !in parts[i]
    ensures Split(Join(parts, sep), sep) == parts
    decreases |parts|
  {
    SplitNoSep(parts[0], sep);
    if |parts| > 1 {
      SplitJoin(parts[1..], sep);
      SplitAppend(parts[0], Join(parts[1..], sep), sep);
      assert parts == [parts[0]] + parts[1..];
    }
  }

  // ---------------------------------------------------------------------- strip

  /** Where `s.lstrip()` starts, scanning from `i`: the first non-whitespace position at or after `i`. */
  function TrimStart(s: string, i: nat): (n: nat)
    requires i <= |s|
    ensures i <= n <= |s|
    ensures forall k :: i <= k < n ==> IsSpace(s[k])
    ensures n < |s| ==> !IsSpace(s[n])
    decreases |s| - i
  {
    if i < |s| && IsSpace(s[i]) then TrimStart(s, i + 1) else i
  }

  /** Where `s.rstrip()` ends, scanning back from `j`: just after the last non-whitespace position before `j`. */
  function TrimEnd(s: string, j: nat): (n: nat)
    requires j <= |s|
    ensures n <= j
    ensures forall k :: n <= k < j ==> IsSpace(s[k])
    ensures n > 0 ==> !IsSpace(s[n - 1])
    decreases j
  {
    if j > 0 && IsSpace(s[j - 1]) then TrimEnd(s, j - 1) else j
  }

  /**
    `s.strip()`: the result has no whitespace at either end, keeps only
    characters of `s`, and is empty exactly when `s` is all whitespace.
   */
  function Strip(s: string): (r: string)
    ensures |r| > 0 ==> !IsSpace(r[0]) && !IsSpace(r[|r| - 1])
    ensures forall c :: c in r ==> c in s
    ensures |r| == 0 <==> forall k :: 0 <= k < |s| ==> IsSpace(s[k])
  {
    var i := TrimStart(s, 0);
    if i == |s| then ""
    else
      var j := TrimEnd(s, |s|);
      assert !IsSpace(s[i]);
      var r := s[i..j];
      assert r[0] == s[i] && r[|r| - 1] == s[j - 1];
      assert forall c :: c in r ==> c in s by {
        forall c | c in r ensures c in s {
          var k :| 0 <= k < |r| && r[k] == c;
          assert s[i + k] == c;
        }
      }
      r
  }

  /** `s.strip()` is the slice of `s` left after removing whitespace from its two ends. */
  lemma StripIsSlice(s: string)
    ensures exists i, j ::
      (&& 0 <= i <= j <= |s| && Strip(s) == s[i..j]
       && (forall k :: 0 <= k < i ==> IsSpace(s[k]))
       && (forall k :: j <= k < |s| ==> IsSpace(s[k])))
  {
    var i := TrimStart(s, 0);
    if i == |s| {
      assert Strip(s) == s[i..i];
    } else {
      var j := TrimEnd(s, |s|);
      assert Strip(s) == s[i..j];
    }
  }

  /** A string with no whitespace at either end is its own strip, also with one trailing newline. */
  lemma StripTrimmed(s: string)
    requires |s| > 0 && !IsSpace(s[0]) && !IsSpace(s[|s| - 1])
    ensures Strip(s) == s
    ensures Strip(s + "\n") == s
  {
    assert TrimStart(s, 0) == 0 && TrimEnd(s, |s|) == |s|;
    assert s[0..|s|] == s;
    var t := s + "\n";
    assert t[0] == s[0] && t[|s| - 1] == s[|s| - 1];
    assert TrimStart(t, 0) == 0;
    assert TrimEnd(t, |t|) == TrimEnd(t, |s|) == |s|;
    assert t[0..|s|] == s;
  }

  /** A string without whitespace is its own strip, also with one trailing newline. */
  lemma StripNoSpace(s: string)
    requires NoSpace(s)
    ensures Strip(s) == s
    ensures Strip(s + "\n") == s
  {
    if |s| > 0 {
      StripTrimmed(s);
    } else {
      assert s + "\n" == "\n";
      assert TrimStart("\n", 0) == 1;
    }
  }

  // ----------------------------------------------------------------- substring

  /** Python's `sub in s` for strings. */
  predicate Contains(s: string, sub: string)
    decreases |s|
  {
    |sub| <= |s| && (s[..|sub|] == sub || Contains(s[1..], sub))
  }

  // -------------------------------------------------------- decimal counts

  predicate IsDigit(c: char) {
    '0' <= c <= '9'
  }

  predicate AllDigits(s: string) {
    forall k :: 0 <= k < |s| ==> IsDigit(s[k])
  }

  /** The value of a string of decimal digits, most significant first. */
  function DigitsValue(s: string): nat
    requires AllDigits(s)
    decreases |s|
  {
    if |s| == 0 then 0
    else DigitsValue(s[..|s| - 1]) * 10 + (s[|s| - 1] as int - '0' as int)
  }

  /**
    The digits of a stripped count field as Python 2's `int` reads them: an
    optional sign, then any whitespace, then the digits.
   */
  function Unsigned(s: string): (d: string)
    ensures |d| <= |s|
    ensures |s| > 0 && s[0] != '+' && s[0] != '-' ==> d == s
  {
    if |s| > 0 && (s[0] == '+' || s[0] == '-') then s[TrimStart(s, 1)..] else s
  }

  /**
    `int(s)` on an already stripped count field, limited to non-negative
    values: a sign, whitespace after it, then at least one decimal digit; a
    `-` is accepted only when the digits are all zeros.
   */
  function ParseCount(s: string): (r: Option<nat>)
    ensures r.Some? <==> && |s| > 0 && |Unsigned(s)| > 0 && AllDigits(Unsigned(s))
                         && (s[0] == '-' ==> DigitsValue(Unsigned(s)) == 0)
    ensures r.Some? ==> r.value == DigitsValue(Unsigned(s))
    ensures |s| > 0 && AllDigits(s) ==> r == Some(DigitsValue(s))
  {
    var d := Unsigned(s);
    if |s| > 0 && |d| > 0 && AllDigits(d) && (s[0] == '-' ==> DigitsValue(d) == 0)
    then Some(DigitsValue(d))
    else None
  }

  /**
    A sign followed by whitespace and digits: `+` gives the digits' value,
    `-` gives zero for zero digits and is refused otherwise (a negative count).
   */
  lemma ParseCountSigned(ws: string, d: string)
    requires forall k :: 0 <= k < |ws| ==> IsSpace(ws[k])
    requires |d| > 0 && AllDigits(d)
    ensures ParseCount("+" + ws + d) == Some(DigitsValue(d))
    ensures ParseCount("-" + ws + d) == if DigitsValue(d) == 0 then Some(0) else None
  {
    UnsignedSigned('+', ws, d);
    UnsignedSigned('-', ws, d);
    assert "+" + ws + d == ['+'] + ws + d;
    assert "-" + ws + d == ['-'] + ws + d;
  }

  lemma UnsignedSigned(sign: char, ws: string, d: string)
    requires sign == '+' || sign == '-'
    requires forall k :: 0 <= k < |ws| ==> IsSpace(ws[k])
    requires |d| > 0 && AllDigits(d)
    ensures Unsigned([sign] + ws + d) == d
  {
    var s := [sign] + ws + d;
    assert forall k :: 1 <= k < |ws| + 1 ==> s[k] == ws[k - 1];
    assert s[|ws| + 1] == d[0];
    SkipSpaces(s, 1, |ws| + 1);
    assert s[|ws| + 1..] == d;
  }

  /** Skipping whitespace from `i` stops at the first non-space at or after `i`. */
  lemma SkipSpaces(s: string, i: nat, j: nat)
    requires i <= j <= |s|
    requires forall k :: i <= k < j ==> IsSpace(s[k])
    requires j < |s| ==> !IsSpace(s[j])
    ensures TrimStart(s, i) == j
    decreases j - i
  {
    if i < j {
      SkipSpaces(s, i + 1, j);
    }
  }

  /** The decimal rendering of a count, as the counts file carries it. */
  function ShowNat(n: nat): (r: string)
    ensures |r| > 0 && AllDigits(r)
    decreases n
  {
    var d := [('0' as int + n % 10) as char];
    if n < 10 then d else ShowNat(n / 10) + d
  }

  /** Parsing the rendering of a count gives that count back. */
  lemma {:induction false} ParseShowNat(n: nat)
    ensures ParseCount(ShowNat(n)) == Some(n)
    ensures NoSpace(ShowNat(n))
    decreases n
  {
    var s := ShowNat(n);
    if n >= 10 {
      ParseShowNat(n / 10);
      assert s[..|s| - 1] == ShowNat(n / 10);
    }
    assert DigitsValue(s) == n;
  }
}
