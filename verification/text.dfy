/** The Python string primitives the dialog relies on: `str.strip()`,
    `str.split(sep)` with its inverse `sep.join`, prefix tests, and decimal
    formatting of an `int` inside an f-string. */
module Text {

  /** Python's `str.isspace()` for one character: the code points that
      `str.strip()` with no argument removes. */
  predicate IsSpace(c: char) {
    var x := c as int;
    if x <= 0x20 then x == 0x20 || 0x09 <= x <= 0x0D || 0x1C <= x <= 0x1F
    else if x < 0x1680 then x == 0x85 || x == 0xA0
    else x == 0x1680 || 0x2000 <= x <= 0x200A || x == 0x2028 || x == 0x2029 || x == 0x202F || x == 0x205F || x == 0x3000
  }

  predicate AllSpace(s: string) {
    forall i :: 0 <= i < |s| ==> IsSpace(s[i])
  }

  /** `s.startswith(p)` */
  predicate StartsWith(s: string, p: string) {
    |p| <= |s| && s[..|p|] == p
  }

  /* ---------------------------------------------------------------- strip */

  /** How many whitespace characters `s` starts with. */
  function LeadingSpace(s: string): (n: nat)
    ensures n <= |s|
    ensures forall i :: 0 <= i < n ==> IsSpace(s[i])
    ensures n < |s| ==> !IsSpace(s[n])
    decreases |s|
  {
    if |s| > 0 && IsSpace(s[0]) then
      var n := 1 + LeadingSpace(s[1..]);
      assert forall i :: 1 <= i < n ==> s[i] == s[1..][i - 1];
      n
    else 0
  }

  /** How long `s` is once its trailing whitespace is dropped. */
  function KeptLength(s: string): (n: nat)
    ensures n <= |s|
    ensures forall i :: n <= i < |s| ==> IsSpace(s[i])
    ensures n > 0 ==> !IsSpace(s[n - 1])
    decreases |s|
  {
    if |s| > 0 && IsSpace(s[|s| - 1]) then
      var n := KeptLength(s[..|s| - 1]);
      assert forall i :: n <= i < |s| - 1 ==> s[i] == s[..|s| - 1][i];
      n
    else |s|
  }

  /** The three facts above pin `LeadingSpace` down. */
  lemma LeadingSpaceIs(s: string, n: nat)
    requires n <= |s|
    requires forall i :: 0 <= i < n ==> IsSpace(s[i])
    requires n < |s| ==> !IsSpace(s[n])
    ensures LeadingSpace(s) == n
  {
  }

  /** `s.strip()`: `s` without its leading and trailing whitespace. The
      result is the part of `s` after its leading whitespace, followed only
      by whitespace; neither end of it is whitespace, and it is empty exactly
      when `s` is all whitespace. */
  function Strip(s: string): (r: string)
    ensures r == "" || (!IsSpace(r[0]) && !IsSpace(r[|r| - 1]))
    ensures r == "" <==> AllSpace(s)
    ensures LeadingSpace(s) + |r| <= |s|
    ensures forall i :: 0 <= i < |r| ==> r[i] == s[LeadingSpace(s) + i]
    ensures forall i :: LeadingSpace(s) + |r| <= i < |s| ==> IsSpace(s[i])
  {
    var a := LeadingSpace(s);
    var t := s[a..];
    var k := KeptLength(t);
    assert a < |s| ==> t[0] == s[a];
    assert k > 0 ==> t[..k][0] == t[0];
    assert forall i :: a + k <= i < |s| ==> s[i] == t[i - a];
    t[..k]
  }

  /** When `s[a..a + m]` has no whitespace at either end and everything
      around it is whitespace, that window is what `strip()` keeps. Only the
      contract of `Strip` is needed for this: it pins the result down. */
  lemma StripWindow(s: string, a: nat, m: nat)
    requires a + m <= |s|
    requires forall i :: 0 <= i < a ==> IsSpace(s[i])
    requires forall i :: a + m <= i < |s| ==> IsSpace(s[i])
    requires m > 0 ==> !IsSpace(s[a]) && !IsSpace(s[a + m - 1])
    ensures |Strip(s)| == m
    ensures forall i :: 0 <= i < m ==> Strip(s)[i] == s[a + i]
  {
    var r := Strip(s);
    if m == 0 {
      assert AllSpace(s);
    } else {
      assert !AllSpace(s) by { assert !IsSpace(s[a]); }
      LeadingSpaceIs(s, a);
      assert !IsSpace(s[a + m - 1]);
      assert |r| >= m;
      assert r[|r| - 1] == s[a + |r| - 1];
      assert |r| <= m;
    }
  }

  /** A string with no whitespace at either end is its own `strip()`. */
  lemma StripUnpadded(s: string)
    requires s == "" || (!IsSpace(s[0]) && !IsSpace(s[|s| - 1]))
    ensures Strip(s) == s
  {
    StripWindow(s, 0, |s|);
  }

  /** Whitespace, then text with no whitespace at either end, then
      whitespace: `strip()` gives back exactly the middle part. */
  lemma StripPadded(before: string, middle: string, after: string)
    requires AllSpace(before) && AllSpace(after)
    requires middle == "" || (!IsSpace(middle[0]) && !IsSpace(middle[|middle| - 1]))
    ensures Strip(before + middle + after) == middle
  {
    var s := before + middle + after;
    var a := |before|;
    assert forall i :: 0 <= i < a ==> s[i] == before[i];
    assert forall i :: 0 <= i < |middle| ==> s[a + i] == middle[i];
    assert forall i :: a + |middle| <= i < |s| ==> s[i] == after[i - a - |middle|];
    StripWindow(s, a, |middle|);
  }

  /** A lone trailing line break makes no difference to `strip()`: this is
      why the newline Tk adds to a text widget's contents never reaches the
      submitted feedback. */
  lemma StripTrailingNewline(s: string)
    ensures Strip(s + "\n") == Strip(s)
  {
    var sn := s + "\n";
    var r := Strip(s);
    var a := LeadingSpace(s);
    assert forall i :: 0 <= i < |s| ==> sn[i] == s[i];
    assert IsSpace(sn[|s|]);
    if r == "" {
      StripWindow(sn, |sn|, 0);
    } else {
      StripWindow(sn, a, |r|);
    }
  }

  /** Stripping twice is stripping once. */
  lemma StripIdempotent(s: string)
    ensures Strip(Strip(s)) == Strip(s)
  {
    var r := Strip(s);
    assert r == "" || (!IsSpace(r[0]) && !IsSpace(r[|r| - 1]));
    StripUnpadded(r);
  }

  /* ------------------------------------------------------------ split/join */

  /** `s.split(sep)`: the pieces between occurrences of `sep`, one more piece
      than there are separators, none containing `sep`. */
  function Split(s: string, sep: char): (parts: seq<string>)
    ensures |parts| >= 1
    ensures forall k :: 0 <= k < |parts| ==> sep !in parts[k]
    decreases |s|
  {
    if |s| == 0 then [""]
    else
      var rest := Split(s[1..], sep);
      if s[0] == sep then [""] + rest
      else [[s[0]] + rest[0]] + rest[1..]
  }

  /** There is one more piece than there are separators. */
  lemma {:induction false} SplitCount(s: string, sep: char)
    ensures |Split(s, sep)| == multiset(s)[sep] + 1
    decreases |s|
  {
    if |s| > 0 {
      SplitCount(s[1..], sep);
      assert s == [s[0]] + s[1..];
      assert multiset(s) == multiset{s[0]} + multiset(s[1..]);
    }
  }

  /** Every character of a piece occurs in the string that was split. */
  lemma {:induction false} SplitChars(s: string, sep: char)
    ensures forall k, x :: 0 <= k < |Split(s, sep)| && x in Split(s, sep)[k] ==> x in s
    decreases |s|
  {
    if |s| > 0 {
      SplitChars(s[1..], sep);
      var rest := Split(s[1..], sep);
      var parts := Split(s, sep);
      forall k, x | 0 <= k < |parts| && x in parts[k] ensures x in s {
        assert s == [s[0]] + s[1..];
        if s[0] == sep {
          assert parts[k] == ([""] + rest)[k];
          if k > 0 { assert parts[k] == rest[k - 1]; }
        } else if k == 0 {
          assert parts[0] == [s[0]] + rest[0];
        } else {
          assert parts[k] == rest[k];
        }
      }
    }
  }

  /** `sep.join(parts)` */
  function Join(parts: seq<string>, sep: char): string
    decreases |parts|
  {
    if |parts| == 0 then ""
    else if |parts| == 1 then parts[0]
    else parts[0] + [sep] + Join(parts[1..], sep)
  }

  /** Joining the pieces of a split gives back the original string. */
  lemma {:induction false} JoinSplit(s: string, sep: char)
    ensures Join(Split(s, sep), sep) == s
    decreases |s|
  {
    if |s| > 0 {
      var rest := Split(s[1..], sep);
      JoinSplit(s[1..], sep);
      if s[0] == sep {
        assert Split(s, sep) == [""] + rest;
        assert ([""] + rest)[1..] == rest;
      } else {
        var parts := Split(s, sep);
        assert parts == [[s[0]] + rest[0]] + rest[1..];
        if |rest| == 1 {
          assert Join(parts, sep) == [s[0]] + rest[0];
        } else {
          assert parts[1..] == rest[1..];
          assert Join(rest, sep) == rest[0] + [sep] + Join(rest[1..], sep);
          assert Join(parts, sep) == [s[0]] + rest[0] + [sep] + Join(rest[1..], sep);
        }
      }
      assert s == [s[0]] + s[1..];
    }
  }

  /** Splitting `x + y`, where `x` holds no separator, puts `x` at the front
      of the first piece of `y`. */
  lemma {:induction false} SplitPrefix(x: string, y: string, sep: char)
    requires sep !in x
    ensures Split(x + y, sep) == [x + Split(y, sep)[0]] + Split(y, sep)[1..]
    decreases |x|
  {
    if |x| == 0 {
      assert x + y == y;
      var ys := Split(y, sep);
      assert ys == [ys[0]] + ys[1..];
      assert x + ys[0] == ys[0];
    } else {
      assert (x + y)[0] == x[0];
      assert (x + y)[1..] == x[1..] + y;
      SplitPrefix(x[1..], y, sep);
      var ys := Split(y, sep);
      var rest := Split(x[1..] + y, sep);
      assert rest == [x[1..] + ys[0]] + ys[1..];
      assert Split(x + y, sep) == [[x[0]] + rest[0]] + rest[1..];
      assert [x[0]] + (x[1..] + ys[0]) == x + ys[0];
    }
  }

  /** Splitting a join of separator-free pieces gives back the pieces. */
  lemma {:induction false} SplitJoin(parts: seq<string>, sep: char)
    requires |parts| >= 1
    requires forall k :: 0 <= k < |parts| ==> sep !in parts[k]
    ensures Split(Join(parts, sep), sep) == parts
    decreases |parts|
  {
    if |parts| == 1 {
      SplitPrefix(parts[0], "", sep);
      assert parts[0] + "" == parts[0];
    } else {
      var tail := Join(parts[1..], sep);
      SplitJoin(parts[1..], sep);
      SplitPrefix(parts[0], [sep] + tail, sep);
      assert ([sep] + tail)[1..] == tail;
      var st := Split([sep] + tail, sep);
      assert st == [""] + parts[1..];
      assert st[0] == "" && st[1..] == parts[1..];
      assert Join(parts, sep) == parts[0] + ([sep] + tail);
      assert Split(Join(parts, sep), sep) == [parts[0] + ""] + parts[1..];
      assert parts[0] + "" == parts[0];
      assert parts == [parts[0]] + parts[1..];
    }
  }

  /* ------------------------------------------------------- delimiter chars */

  /** `s` with every occurrence of `c` deleted. */
  function Without(s: string, c: char): (r: string)
    ensures c !in r
    decreases |s|
  {
    if |s| == 0 then ""
    else (if s[0] == c then "" else [s[0]]) + Without(s[1..], c)
  }

  /** A string without `c` has nothing to delete. */
  lemma {:induction false} WithoutAbsent(s: string, c: char)
    requires c !in s
    ensures Without(s, c) == s
    decreases |s|
  {
    if |s| > 0 {
      assert s[0] != c && c !in s[1..];
      WithoutAbsent(s[1..], c);
      assert s == [s[0]] + s[1..];
    }
  }

  lemma {:induction false} WithoutAppend(a: string, b: string, c: char)
    ensures Without(a + b, c) == Without(a, c) + Without(b, c)
    decreases |a|
  {
    if |a| == 0 {
      assert a + b == b;
    } else {
      assert (a + b)[0] == a[0];
      assert (a + b)[1..] == a[1..] + b;
      WithoutAppend(a[1..], b, c);
    }
  }

  /** Deleting two characters commutes. */
  lemma {:induction false} WithoutCommutes(s: string, c: char, d: char)
    ensures Without(Without(s, c), d) == Without(Without(s, d), c)
    decreases |s|
  {
    if |s| > 0 {
      WithoutCommutes(s[1..], c, d);
      var h := if s[0] == c then "" else [s[0]];
      var g := if s[0] == d then "" else [s[0]];
      WithoutAppend(h, Without(s[1..], c), d);
      WithoutAppend(g, Without(s[1..], d), c);
      if |h| == 1 { assert h[1..] == ""; }
      if |g| == 1 { assert g[1..] == ""; }
    }
  }

  /* --------------------------------------------------------------- decimal */

  predicate IsDigit(c: char) {
    '0' <= c <= '9'
  }

  predicate AllDigits(s: string) {
    forall i :: 0 <= i < |s| ==> IsDigit(s[i])
  }

  function DigitChar(d: nat): (c: char)
    requires d < 10
    ensures IsDigit(c) && c as int - '0' as int == d
  {
    (d + '0' as int) as char
  }

  /** Python's `str(n)` for a non-negative integer: digits only, with no
      leading zero unless the number is zero itself. */
  function NatToDecimal(n: nat): (r: string)
    ensures |r| >= 1 && AllDigits(r)
    ensures |r| == 1 || r[0] != '0'
    decreases n
  {
    if n < 10 then [DigitChar(n)]
    else
      var h := NatToDecimal(n / 10);
      var r := h + [DigitChar(n % 10)];
      assert r[|r| - 1] == DigitChar(n % 10);
      assert r[0] == h[0];
      assert |h| == 1 ==> h == [DigitChar(n / 10)] && n / 10 >= 1;
      r
  }

  /** The value of a string of decimal digits, read left to right. */
  function ParseNat(s: string): nat
    requires AllDigits(s)
    decreases |s|
  {
    if |s| == 0 then 0
    else ParseNat(s[..|s| - 1]) * 10 + (s[|s| - 1] as int - '0' as int)
  }

  /** Formatting a non-negative integer in decimal loses nothing: it
      reads back as the same integer. */
  lemma {:induction false} ParseNatToDecimal(n: nat)
    ensures ParseNat(NatToDecimal(n)) == n
    decreases n
  {
    if n >= 10 {
      var r := NatToDecimal(n);
      ParseNatToDecimal(n / 10);
      assert r[..|r| - 1] == NatToDecimal(n / 10);
    }
  }

}
