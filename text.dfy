/**
 * The string operations the matrix file parser relies on, modelled after
 * Python's str.strip, str.split with a one-character separator, and int()
 * on a decimal literal, together with the formatting that inverts them.
 */
module Text {
  import opened Wrappers

  /** The ASCII characters Python's str.strip() removes as whitespace. */
  const Whitespace: set<char> :=
    {' ', '\t', '\n', '\r', '\U{B}', '\U{C}', '\U{1C}', '\U{1D}', '\U{1E}', '\U{1F}'}

  /**
   * The ASCII characters int() skips around a literal. The separators
   * \x1c to \x1f, which str.strip() does remove, are not among them.
   */
  const IntWhitespace: set<char> := {' ', '\t', '\n', '\r', '\U{B}', '\U{C}'}

  /** s.lstrip(cs): the suffix of s left after dropping every leading character in cs. */
  function StripLeft(s: string, cs: set<char>): string
  {
    if s != [] && s[0] in cs then StripLeft(s[1..], cs) else s
  }

  /** s.rstrip(cs): the prefix of s left after dropping every trailing character in cs. */
  function StripRight(s: string, cs: set<char>): string
  {
    if s != [] && s[|s| - 1] in cs then StripRight(s[..|s| - 1], cs) else s
  }

  /** How many leading characters of s are in cs, the ones lstrip drops. */
  function LeadingCount(s: string, cs: set<char>): (n: nat)
    ensures n <= |s|
  {
    if s != [] && s[0] in cs then 1 + LeadingCount(s[1..], cs) else 0
  }

  /** StripLeft keeps a suffix, every character it drops is in cs, and the first one it keeps is not. */
  lemma {:induction false} StripLeftSuffix(s: string, cs: set<char>)
    ensures var r := StripLeft(s, cs);
      |r| <= |s| && r == s[|s| - |r|..] && LeadingCount(s, cs) == |s| - |r| &&
      (forall i :: 0 <= i < |s| - |r| ==> s[i] in cs) &&
      (r == [] || r[0] !in cs)
  {
    if s != [] && s[0] in cs {
      StripLeftSuffix(s[1..], cs);
    }
  }

  /** StripRight keeps a prefix, every character it drops is in cs, and the last one it keeps is not. */
  lemma {:induction false} StripRightPrefix(s: string, cs: set<char>)
    ensures var r := StripRight(s, cs);
      |r| <= |s| && r == s[..|r|] &&
      (forall i :: |r| <= i < |s| ==> s[i] in cs) &&
      (r == [] || r[|r| - 1] !in cs)
  {
    if s != [] && s[|s| - 1] in cs {
      StripRightPrefix(s[..|s| - 1], cs);
    }
  }


  /**
   * s.strip(cs): what is left of s once its leading and trailing characters
   * in cs are dropped. The result is empty exactly when every character of s
   * is in cs, and otherwise neither begins nor ends with a character in cs.
   */
  function Strip(s: string, cs: set<char>): (r: string)
    ensures |r| <= |s|
    ensures r == [] || (r[0] !in cs && r[|r| - 1] !in cs)
    ensures r == [] <==> forall i :: 0 <= i < |s| ==> s[i] in cs
  {
    var left := StripLeft(s, cs);
    var r := StripRight(left, cs);
    StripLeftSuffix(s, cs);
    StripRightPrefix(left, cs);
    assert r != [] ==> r[0] == left[0];
    assert r == [] ==> left == [];
    r
  }

  /**
   * What Strip keeps is the slice of s that starts after its leading run of
   * characters in cs; every character before and after that slice is in cs.
   */
  lemma StripSlice(s: string, cs: set<char>)
    ensures var r, i := Strip(s, cs), LeadingCount(s, cs);
      i + |r| <= |s| && r == s[i..i + |r|] &&
      (forall j :: 0 <= j < i ==> s[j] in cs) && (forall j :: i + |r| <= j < |s| ==> s[j] in cs)
  {
    var left := StripLeft(s, cs);
    var r := StripRight(left, cs);
    StripLeftSuffix(s, cs);
    StripRightPrefix(left, cs);
    var start := LeadingCount(s, cs);
    assert left == s[start..];
    assert r == s[start..start + |r|];
    forall j | start + |r| <= j < |s| ensures s[j] in cs {
      assert s[j] == left[j - start];
    }
  }

  /** Stripping leaves alone a string that neither begins nor ends with a character in cs. */
  lemma StripUnchanged(s: string, cs: set<char>)
    requires s != [] && s[0] !in cs && s[|s| - 1] !in cs
    ensures Strip(s, cs) == s
  {
    assert StripLeft(s, cs) == s;
  }

  /** Stripping "(" + x + ")" of parentheses returns x when x neither begins nor ends with one. */
  lemma StripWrapped(x: string, open: char, close: char, cs: set<char>)
    requires open in cs && close in cs
    requires x != [] && x[0] !in cs && x[|x| - 1] !in cs
    ensures Strip([open] + x + [close], cs) == x
  {
    var s := [open] + x + [close];
    assert s[1..] == x + [close];
    assert StripLeft(s, cs) == StripLeft(x + [close], cs);
    assert StripLeft(x + [close], cs) == x + [close];
    assert (x + [close])[..|x|] == x;
    assert StripRight(x + [close], cs) == StripRight(x, cs);
  }

  /**
   * s.split(sep): the pieces of s between occurrences of sep, in order.
   * There is always at least one piece and no piece contains sep.
   */
  function SplitOn(s: string, sep: char): (parts: seq<string>)
    ensures |parts| >= 1
    ensures forall i :: 0 <= i < |parts| ==> sep !in parts[i]
    ensures sep !in s ==> parts == [s]
  {
    if s == [] then [[]]
    else
      var rest := SplitOn(s[1..], sep);
      assert [s[0]] + s[1..] == s;
      assert sep !in s ==> sep !in s[1..];
      if s[0] == sep then [[]] + rest else [[s[0]] + rest[0]] + rest[1..]
  }

  /** sep.join(parts): the pieces in order, with sep between neighbours. */
  function JoinWith(parts: seq<string>, sep: char): string
  {
    if parts == [] then []
    else if |parts| == 1 then parts[0]
    else parts[0] + [sep] + JoinWith(parts[1..], sep)
  }

  /** Joining the pieces of a split gives back the original string. */
  lemma {:induction false} JoinSplit(s: string, sep: char)
    ensures JoinWith(SplitOn(s, sep), sep) == s
  {
    if s != [] {
      var rest := SplitOn(s[1..], sep);
      JoinSplit(s[1..], sep);
      if s[0] == sep {
        assert JoinWith([[]] + rest, sep) == [] + [sep] + JoinWith(rest, sep);
      } else {
        var parts := [[s[0]] + rest[0]] + rest[1..];
        if |rest| == 1 {
          assert parts == [[s[0]] + rest[0]];
        } else {
          assert parts[1..] == rest[1..];
          assert JoinWith(rest, sep) == rest[0] + [sep] + JoinWith(rest[1..], sep);
        }
      }
    }
  }

  /** Joining three pieces puts sep between the first and second and between the second and third. */
  lemma JoinThree(x: string, y: string, z: string, sep: char)
    ensures JoinWith([x, y, z], sep) == x + [sep] + (y + [sep] + z)
  {
    assert [y, z][1..] == [z];
    assert JoinWith([y, z], sep) == y + [sep] + z;
    assert [x, y, z][1..] == [y, z];
  }

  /** A piece free of sep, followed by sep, splits off as the first piece. */
  lemma {:induction false} SplitOnPiece(a: string, b: string, sep: char)
    requires sep !in a
    ensures SplitOn(a + [sep] + b, sep) == [a] + SplitOn(b, sep)
    ensures SplitOn(a, sep) == [a]
  {
    if a != [] {
      SplitOnPiece(a[1..], b, sep);
      assert (a + [sep] + b)[1..] == a[1..] + [sep] + b;
      assert [a[0]] + a[1..] == a;
    }
  }

  /** The second piece of a + sep + b + ..., with a and b free of sep, is b, whatever follows it. */
  lemma SplitOnSecond(a: string, b: string, rest: string, sep: char)
    requires sep !in a && sep !in b
    ensures SplitOn(a + [sep] + b, sep) == [a, b]
    ensures var parts := SplitOn(a + [sep] + b + [sep] + rest, sep); |parts| >= 2 && parts[1] == b
  {
    assert SplitOn(a + [sep] + b, sep) == [a, b] by {
      SplitOnPiece(a, b, sep);
      SplitOnPiece(b, [], sep);
    }
    var tail := b + [sep] + rest;
    assert a + [sep] + b + [sep] + rest == a + [sep] + tail;
    SplitOnPiece(a, tail, sep);
    SplitOnPiece(b, rest, sep);
  }

  /** Splitting a join of pieces free of sep gives back the pieces. */
  lemma {:induction false} SplitJoin(parts: seq<string>, sep: char)
    requires |parts| >= 1
    requires forall i :: 0 <= i < |parts| ==> sep !in parts[i]
    ensures SplitOn(JoinWith(parts, sep), sep) == parts
  {
    SplitOnPiece(parts[0], [], sep);
    if |parts| > 1 {
      SplitJoin(parts[1..], sep);
      SplitOnPiece(parts[0], JoinWith(parts[1..], sep), sep);
      assert [parts[0]] + parts[1..] == parts;
    }
  }

  predicate IsDigit(c: char) { '0' <= c <= '9' }

  /** A non-empty run of decimal digits. */
  predicate IsDigits(s: string) { s != [] && forall i :: 0 <= i < |s| ==> IsDigit(s[i]) }

  /** The value of a run of decimal digits, leading zeros allowed. */
  function DigitsValue(s: string): nat
    requires forall i :: 0 <= i < |s| ==> IsDigit(s[i])
  {
    if s == [] then 0 else 10 * DigitsValue(s[..|s| - 1]) + DigitValue(s[|s| - 1])
  }

  function DigitValue(c: char): nat
    requires IsDigit(c)
  {
    (c - '0') as nat
  }

  /** The decimal digits of n, without leading zeros. */
  function NatToString(n: nat): (s: string)
    ensures IsDigits(s)
  {
    var last := ('0' as int + n % 10) as char;
    if n < 10 then [last] else NatToString(n / 10) + [last]
  }

  /** str(n) for an integer: a minus sign for a negative n, then the digits of its magnitude. */
  function IntToString(n: int): string
  {
    if n < 0 then "-" + NatToString(-n) else NatToString(n)
  }

  /** A decimal integer literal: one or more digits, optionally after a '+' or '-' sign. */
  predicate IsIntLiteral(t: string)
  {
    IsDigits(t) || (t != [] && (t[0] == '+' || t[0] == '-') && IsDigits(t[1..]))
  }

  /**
   * int(s) on a decimal literal: the whitespace int() skips is ignored at
   * both ends, then an optional '+' or '-' sign and one or more digits must
   * make up the rest.
   */
  function ParseInt(s: string): (r: Option<int>)
    ensures r.Some? <==> IsIntLiteral(Strip(s, IntWhitespace))
    ensures r.Some? && r.value < 0 ==> Strip(s, IntWhitespace)[0] == '-'
  {
    var t := Strip(s, IntWhitespace);
    if t != [] && (t[0] == '+' || t[0] == '-') then
      var digits := t[1..];
      if IsDigits(digits) then
        var magnitude: int := DigitsValue(digits);
        Some(if t[0] == '-' then -magnitude else magnitude)
      else None
    else if IsDigits(t) then Some(DigitsValue(t))
    else None
  }

  /** A string whose first character is neither whitespace to int(), a sign nor a digit is not an integer. */
  lemma ParseIntRejectsLead(s: string)
    requires s != [] && s[0] !in IntWhitespace && s[0] != '+' && s[0] != '-' && !IsDigit(s[0])
    ensures ParseInt(s) == None
  {
    StripSlice(s, IntWhitespace);
    assert LeadingCount(s, IntWhitespace) == 0;
    assert Strip(s, IntWhitespace)[0] == s[0];
  }

  /** The digits NatToString writes read back as the number they were written from. */
  lemma {:induction false} NatToStringValue(n: nat)
    ensures DigitsValue(NatToString(n)) == n
  {
    if n >= 10 {
      NatToStringValue(n / 10);
      var s := NatToString(n);
      assert s[..|s| - 1] == NatToString(n / 10);
    }
  }

  /** What IntToString writes neither begins nor ends with whitespace, a separator or a parenthesis. */
  lemma IntToStringShape(n: int)
    ensures var s := IntToString(n);
      s != [] && (s[0] == '-' || IsDigit(s[0])) && IsDigit(s[|s| - 1]) &&
      forall i :: 0 <= i < |s| ==> s[i] == '-' || IsDigit(s[i])
  {
  }

  /** int(str(n)) == n: parsing what IntToString writes gives back the number. */
  lemma ParseIntOfIntToString(n: int)
    ensures ParseInt(IntToString(n)) == Some(n)
  {
    var s := IntToString(n);
    IntToStringShape(n);
    StripUnchanged(s, IntWhitespace);
    if n < 0 {
      assert s[1..] == NatToString(-n);
      NatToStringValue(-n);
    } else {
      NatToStringValue(n);
    }
  }

  /** lstrip drops a leading run of characters in cs up to the first one that is not. */
  lemma {:induction false} StripLeftPadded(ws: string, t: string, cs: set<char>)
    requires forall i :: 0 <= i < |ws| ==> ws[i] in cs
    requires t == [] || t[0] !in cs
    ensures StripLeft(ws + t, cs) == t
  {
    if ws != [] {
      assert (ws + t)[1..] == ws[1..] + t;
      StripLeftPadded(ws[1..], t, cs);
    }
  }

  /** rstrip drops a trailing run of characters in cs back to the last one that is not. */
  lemma {:induction false} StripRightPadded(t: string, ws: string, cs: set<char>)
    requires forall i :: 0 <= i < |ws| ==> ws[i] in cs
    requires t == [] || t[|t| - 1] !in cs
    ensures StripRight(t + ws, cs) == t
  {
    if ws != [] {
      assert (t + ws)[..|t + ws| - 1] == t + ws[..|ws| - 1];
      StripRightPadded(t, ws[..|ws| - 1], cs);
    } else {
      assert t + ws == t;
    }
  }

  /** Stripping ws + t + ws' of cs gives t when ws and ws' are all in cs and t neither begins nor ends with one. */
  lemma StripPadded(ws: string, t: string, ws': string, cs: set<char>)
    requires forall i :: 0 <= i < |ws| ==> ws[i] in cs
    requires forall i :: 0 <= i < |ws'| ==> ws'[i] in cs
    requires t != [] && t[0] !in cs && t[|t| - 1] !in cs
    ensures Strip(ws + t + ws', cs) == t
  {
    assert ws + t + ws' == ws + (t + ws');
    StripLeftPadded(ws, t + ws', cs);
    StripRightPadded(t, ws', cs);
  }

  /** Leading zeros do not change the value of a run of digits. */
  lemma {:induction false} DigitsValueLeadingZeros(zeros: string, d: string)
    requires forall i :: 0 <= i < |zeros| ==> zeros[i] == '0'
    requires forall i :: 0 <= i < |d| ==> IsDigit(d[i])
    ensures DigitsValue(zeros + d) == DigitsValue(d)
  {
    if d == [] {
      if zeros != [] {
        assert zeros + d == zeros;
        assert zeros[..|zeros| - 1] + [] == zeros[..|zeros| - 1];
        DigitsValueLeadingZeros(zeros[..|zeros| - 1], []);
      }
    } else {
      assert (zeros + d)[..|zeros + d| - 1] == zeros + d[..|d| - 1];
      DigitsValueLeadingZeros(zeros, d[..|d| - 1]);
    }
  }

  /** Regrouping a five-part concatenation around its middle three parts. */
  lemma Regroup(a: string, b: string, c: string, d: string, e: string)
    ensures a + b + c + d + e == a + (b + (c + d)) + e
  {
    assert a + b + c + d + e == a + (b + c + d) + e;
  }

  /** int() ignores whitespace it skips around a text that neither begins nor ends with any. */
  lemma ParseIntIgnoresPadding(ws: string, t: string, ws': string)
    requires forall i :: 0 <= i < |ws| ==> ws[i] in IntWhitespace
    requires forall i :: 0 <= i < |ws'| ==> ws'[i] in IntWhitespace
    requires t != [] && t[0] !in IntWhitespace && t[|t| - 1] !in IntWhitespace
    ensures ParseInt(ws + t + ws') == ParseInt(t)
  {
    StripPadded(ws, t, ws', IntWhitespace);
    StripUnchanged(t, IntWhitespace);
  }

  /** An optional sign and a run of digits neither begin nor end with whitespace. */
  lemma SignedDigitsShape(sign: string, digits: string)
    requires sign == "" || sign == "+" || sign == "-"
    requires IsDigits(digits)
    ensures var t := sign + digits; t != [] && t[0] !in IntWhitespace && t[|t| - 1] !in IntWhitespace
    ensures var t := sign + digits; t[0] == if sign == "" then digits[0] else sign[0]
  {
    var t := sign + digits;
    assert t[|t| - 1] == digits[|digits| - 1];
  }

  /** A run of digits with a '+' or '-' sign, or none, reads as its value, negated for '-'. */
  lemma ParseIntSigned(sign: string, digits: string)
    requires sign == "" || sign == "+" || sign == "-"
    requires IsDigits(digits)
    ensures ParseInt(sign + digits) == Some(if sign == "-" then -(DigitsValue(digits) as int) else DigitsValue(digits) as int)
  {
    SignedDigitsShape(sign, digits);
    StripUnchanged(sign + digits, IntWhitespace);
    if sign == "" {
      assert sign + digits == digits;
      ParseIntUnsigned(digits);
    } else {
      ParseIntWithSign(sign[0], digits);
      assert sign + digits == [sign[0]] + digits;
    }
  }

  /** A run of digits with no sign reads as its value. */
  lemma ParseIntUnsigned(digits: string)
    requires IsDigits(digits) && Strip(digits, IntWhitespace) == digits
    ensures ParseInt(digits) == Some(DigitsValue(digits))
  {
    assert IsDigit(digits[0]);
  }

  /** A run of digits after '+' reads as its value and after '-' as its negation. */
  lemma ParseIntWithSign(sign: char, digits: string)
    requires sign == '+' || sign == '-'
    requires IsDigits(digits) && Strip([sign] + digits, IntWhitespace) == [sign] + digits
    ensures ParseInt([sign] + digits) == Some(if sign == '-' then -(DigitsValue(digits) as int) else DigitsValue(digits) as int)
  {
    var t := [sign] + digits;
    assert t[0] == sign && t[1..] == digits;
  }

  /**
   * int() of n's digits after leading zeros, an optional sign and whitespace
   * at either end is n, negated for a '-' sign.
   */
  lemma ParseIntPadded(ws: string, sign: string, zeros: string, n: nat, ws': string)
    requires forall i :: 0 <= i < |ws| ==> ws[i] in IntWhitespace
    requires forall i :: 0 <= i < |ws'| ==> ws'[i] in IntWhitespace
    requires sign == "" || sign == "+" || sign == "-"
    requires forall i :: 0 <= i < |zeros| ==> zeros[i] == '0'
    ensures ParseInt(ws + sign + zeros + NatToString(n) + ws') == Some(if sign == "-" then -(n as int) else n as int)
  {
    var digits := zeros + NatToString(n);
    assert IsDigits(digits) && DigitsValue(digits) == n by {
      NatToStringValue(n);
      DigitsValueLeadingZeros(zeros, NatToString(n));
    }
    var t := sign + digits;
    ParseIntSigned(sign, digits);
    SignedDigitsShape(sign, digits);
    Regroup(ws, sign, zeros, NatToString(n), ws');
    ParseIntIgnoresPadding(ws, t, ws');
  }
}
