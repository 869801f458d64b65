/** The few string operations of the Arduino `String` class that the activity log
    relies on: decimal rendering of an unsigned number, `trim()` and `indexOf(ch, from)`. */
module Text {

  /** The characters C's `isspace` accepts, which `String::trim` strips from both ends. */
  predicate IsSpace(c: char) {
    c == ' ' || c == '\t' || c == '\n' || c == '\U{0B}' || c == '\U{0C}' || c == '\r'
  }

  predicate IsDigit(c: char) {
    '0' <= c <= '9'
  }

  function DigitChar(d: nat): (c: char)
    requires d < 10
    ensures IsDigit(c) && c as int - '0' as int == d
  {
    ['0', '1', '2', '3', '4', '5', '6', '7', '8', '9'][d]
  }

  /** Decimal rendering without leading zeros, as `%lu` and `String(unsigned long)` print. */
  function NatToString(n: nat): (s: string)
    ensures |s| > 0
    ensures forall i :: 0 <= i < |s| ==> IsDigit(s[i])
    decreases n
  {
    if n < 10 then [DigitChar(n)] else NatToString(n / 10) + [DigitChar(n % 10)]
  }

  /** The number a string of decimal digits denotes. */
  function DecimalValue(s: string): nat
    requires forall i :: 0 <= i < |s| ==> IsDigit(s[i])
  {
    if s == [] then 0
    else
      assert IsDigit(s[|s| - 1]);
      10 * DecimalValue(s[..|s| - 1]) + (s[|s| - 1] as int - '0' as int)
  }

  /** The decimal text reads back as the number it was printed from. */
  lemma {:induction false} DecimalRoundTrip(n: nat)
    ensures DecimalValue(NatToString(n)) == n
    decreases n
  {
    var s := NatToString(n);
    if n >= 10 {
      DecimalRoundTrip(n / 10);
      assert s[..|s| - 1] == NatToString(n / 10);
    }
  }

  /** Two decimals are equal only when the numbers are: the rendering is injective. */
  lemma NatToStringInjective(m: nat, n: nat)
    requires NatToString(m) == NatToString(n)
    ensures m == n
  {
    DecimalRoundTrip(m);
    DecimalRoundTrip(n);
  }

  /** A confidence in hundredths rendered with two decimals, as `%.2f` and
      `String(float, 2)` print a non-negative value. */
  function CentiToString(c: nat): (s: string)
    ensures |s| >= 4 && s[|s| - 3] == '.'
    ensures IsDigit(s[0]) && IsDigit(s[|s| - 1])
    ensures forall i :: 0 <= i < |s| ==> s[i] != ','
  {
    NatToString(c / 100) + ['.', DigitChar(c / 10 % 10), DigitChar(c % 10)]
  }

  function TrimStart(s: string): string {
    if |s| > 0 && IsSpace(s[0]) then TrimStart(s[1..]) else s
  }

  function TrimEnd(s: string): string {
    if |s| > 0 && IsSpace(s[|s| - 1]) then TrimEnd(s[..|s| - 1]) else s
  }

  /** `String::trim`: strips leading and trailing white space. */
  function Trim(s: string): string {
    TrimEnd(TrimStart(s))
  }

  /** `TrimStart` removes a prefix made of white space and stops at the first other
      character. */
  lemma {:induction false} TrimStartShape(s: string)
    ensures var t := TrimStart(s);
      && |t| <= |s| && t == s[|s| - |t|..]
      && (t == [] || !IsSpace(t[0]))
      && forall i :: 0 <= i < |s| - |t| ==> IsSpace(s[i])
  {
    if |s| > 0 && IsSpace(s[0]) {
      var r := s[1..];
      TrimStartShape(r);
      var t := TrimStart(r);
      assert TrimStart(s) == t;
      assert r[|r| - |t|..] == s[|s| - |t|..];
      forall i | 0 <= i < |s| - |t|
        ensures IsSpace(s[i])
      {
        if i > 0 {
          assert s[i] == r[i - 1];
        }
      }
    }
  }

  /** `TrimEnd` removes a suffix made of white space and stops at the last other
      character. */
  lemma {:induction false} TrimEndShape(s: string)
    ensures var t := TrimEnd(s);
      && |t| <= |s| && t == s[..|t|]
      && (t == [] || !IsSpace(t[|t| - 1]))
      && forall i :: |t| <= i < |s| ==> IsSpace(s[i])
  {
    if |s| > 0 && IsSpace(s[|s| - 1]) {
      var r := s[..|s| - 1];
      TrimEndShape(r);
      var t := TrimEnd(r);
      assert TrimEnd(s) == t;
      assert r[..|t|] == s[..|t|];
      forall i | |t| <= i < |s|
        ensures IsSpace(s[i])
      {
        if i < |s| - 1 {
          assert s[i] == r[i];
        }
      }
    }
  }

  /** What `trim` leaves starts and ends with a character that is not white space, and
      is no longer than the input. */
  lemma TrimShape(s: string)
    ensures var t := Trim(s);
      |t| <= |s| && (t == [] || (!IsSpace(t[0]) && !IsSpace(t[|t| - 1])))
  {
    var u := TrimStart(s);
    TrimStartShape(s);
    TrimEndShape(u);
    var t := Trim(s);
    if t != [] {
      assert t[0] == u[0];
    }
  }

  /** `trim` leaves nothing exactly when the line is all white space. */
  lemma TrimEmptyIffBlank(s: string)
    ensures Trim(s) == [] <==> forall i :: 0 <= i < |s| ==> IsSpace(s[i])
  {
    var u := TrimStart(s);
    TrimStartShape(s);
    TrimEndShape(u);
    if Trim(s) == [] {
      assert u == [];
    } else {
      var t := Trim(s);
      assert t[0] == u[0] == s[|s| - |u|];
    }
  }

  /** A string with no white space at either end is left alone by `trim`. */
  lemma TrimTidy(s: string)
    requires s == [] || (!IsSpace(s[0]) && !IsSpace(s[|s| - 1]))
    ensures Trim(s) == s
  {
    assert TrimStart(s) == s;
  }

  /** `String::indexOf(ch, from)`: the first position at or after `from` holding `ch`,
      or -1 when there is none (also when `from` is past the end). */
  function IndexOf(s: string, c: char, from: nat): (k: int)
    ensures k == -1 || from <= k < |s|
    decreases |s| - from
  {
    if from >= |s| then -1 else if s[from] == c then from else IndexOf(s, c, from + 1)
  }

  /** What `indexOf` returns is -1 or a position at or after `from` holding `c`. */
  lemma {:induction false} IndexOfFound(s: string, c: char, from: nat)
    ensures var k := IndexOf(s, c, from);
      k == -1 || (from <= k < |s| && s[k] == c)
    decreases |s| - from
  {
    if from < |s| && s[from] != c {
      IndexOfFound(s, c, from + 1);
    }
  }

  /** `indexOf` skips no occurrence: nothing between `from` and the position found (or
      the end, when none is found) equals `c`. */
  lemma {:induction false} IndexOfSkipsNone(s: string, c: char, from: nat)
    ensures var k := IndexOf(s, c, from);
      forall i :: from <= i < |s| && (k == -1 || i < k) ==> s[i] != c
    decreases |s| - from
  {
    if from < |s| && s[from] != c {
      IndexOfSkipsNone(s, c, from + 1);
    }
  }
}
