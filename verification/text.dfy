/** The string handling the engine relies on: JavaScript's `String.prototype.trim`
    (applied to a new team's name), `Number.prototype.toString` on integers and
    `String.prototype.padStart` (both used to display a match clock). */
module Text {

  import opened Base

  /** The characters `trim` removes: ECMAScript's WhiteSpace (tab, vertical tab,
      form feed, space, no-break space, byte-order mark and the Unicode space
      separators) and LineTerminator (line feed, carriage return, U+2028, U+2029). */
  predicate IsSpace(c: char) {
    || c == '\t' || c == '\n' || c == '\U{000B}' || c == '\U{000C}' || c == '\r'
    || c == ' ' || c == '\U{00A0}' || c == '\U{1680}'
    || ('\U{2000}' <= c <= '\U{200A}')
    || c == '\U{2028}' || c == '\U{2029}' || c == '\U{202F}' || c == '\U{205F}'
    || c == '\U{3000}' || c == '\U{FEFF}'
  }

  predicate AllSpace(s: string) {
    forall k :: 0 <= k < |s| ==> IsSpace(s[k])
  }

  /** Every character of `s` from position `i` up to `j` is whitespace. */
  predicate SpacesIn(s: string, i: nat, j: nat)
    requires i <= j <= |s|
  {
    forall k :: i <= k < j ==> IsSpace(s[k])
  }

  /** A string with no whitespace at either end: what `trim` produces. */
  predicate IsTrimmed(s: string) {
    s == [] || (!IsSpace(s[0]) && !IsSpace(s[|s| - 1]))
  }

  /** Drops the leading whitespace. */
  function TrimStart(s: string): (r: string)
    ensures |r| <= |s| && r == s[|s| - |r|..]
    ensures SpacesIn(s, 0, |s| - |r|)
    ensures r == [] || !IsSpace(r[0])
  {
    if s != [] && IsSpace(s[0]) then TrimStart(s[1..]) else s
  }

  /** Drops the trailing whitespace. */
  function TrimEnd(s: string): (r: string)
    ensures |r| <= |s| && r == s[..|r|]
    ensures SpacesIn(s, |r|, |s|)
    ensures r == [] || !IsSpace(r[|r| - 1])
  {
    if s != [] && IsSpace(s[|s| - 1]) then TrimEnd(s[..|s| - 1]) else s
  }

  /** Number of whitespace characters `trim` removes from the front of `s`. */
  function Lead(s: string): (n: nat)
    ensures n <= |s| && AllSpace(s[..n])
    ensures n < |s| ==> !IsSpace(s[n])
  {
    |s| - |TrimStart(s)|
  }

  /** `s.trim()`: the result is `s` minus a whitespace prefix and a whitespace
      suffix, it has no whitespace at either end, and it is empty exactly when
      `s` is all whitespace. */
  function Trim(s: string): (r: string)
    ensures IsTrimmed(r)
    ensures Lead(s) + |r| <= |s| && s[Lead(s)..Lead(s) + |r|] == r
    ensures AllSpace(s[Lead(s) + |r|..])
    ensures r == [] <==> AllSpace(s)
  {
    var a := TrimStart(s);
    var r := TrimEnd(a);
    TrimSlices(s, a, r, |s| - |a|);
    TrimEmpty(s);
    TrimBothEnds(s);
    r
  }

  /** Neither end of the trimmed text is whitespace: the front is where
      `TrimStart` stopped, the back where `TrimEnd` stopped. */
  lemma TrimBothEnds(s: string)
    ensures IsTrimmed(TrimEnd(TrimStart(s)))
  {
    var a := TrimStart(s);
    var r := TrimEnd(a);
    if r != [] {
      assert r == a[..|r|];
      assert r[0] == a[0];
    }
  }

  /** Where the trimmed text sits inside the original, and that what follows
      it is whitespace. */
  lemma TrimSlices(s: string, a: string, r: string, i: nat)
    requires i <= |s| && a == s[i..]
    requires |r| <= |a| && r == a[..|r|] && SpacesIn(a, |r|, |a|)
    ensures i + |r| <= |s| && s[i..i + |r|] == r
    ensures AllSpace(s[i + |r|..])
  {
    SuffixSlices(s, a, i, |r|);
  }

  /** Slicing a suffix is slicing the whole string further along. */
  lemma SuffixSlices(s: string, a: string, i: nat, j: nat)
    requires i <= |s| && a == s[i..] && j <= |a|
    ensures a[..j] == s[i..i + j] && a[j..] == s[i + j..]
  {
  }

  /** Trimming leaves nothing exactly when everything is whitespace. */
  lemma TrimEmpty(s: string)
    ensures TrimEnd(TrimStart(s)) == [] <==> AllSpace(s)
  {
    var a := TrimStart(s);
    var i := |s| - |a|;
    AllSpaceSplit(s[..i], a);
    assert s == s[..i] + a;
    if TrimEnd(a) == [] {
      assert a[0..] == a;
    }
  }

  lemma AllSpaceSplit(x: string, y: string)
    ensures AllSpace(x + y) <==> AllSpace(x) && AllSpace(y)
  {
    if AllSpace(x) && AllSpace(y) {
      forall k | 0 <= k < |x + y| ensures IsSpace((x + y)[k]) {
        if k >= |x| { assert (x + y)[k] == y[k - |x|]; }
      }
    }
    if AllSpace(x + y) {
      forall k | 0 <= k < |x| ensures IsSpace(x[k]) {
        assert (x + y)[k] == x[k];
      }
      forall k | 0 <= k < |y| ensures IsSpace(y[k]) {
        assert (x + y)[|x| + k] == y[k];
      }
    }
  }

  /** Trimming is the identity on a trimmed string, so a registered name
      survives a second `trim` unchanged. */
  lemma TrimOfTrimmed(s: string)
    requires IsTrimmed(s)
    ensures Trim(s) == s
  {
    if s != [] {
      assert TrimStart(s) == s;
      assert TrimEnd(s) == s;
    }
  }

  lemma {:induction false} TrimStartPadded(a: string, u: string)
    requires AllSpace(a)
    requires u == [] || !IsSpace(u[0])
    ensures TrimStart(a + u) == u
    decreases |a|
  {
    if a != [] {
      assert (a + u)[1..] == a[1..] + u;
      TrimStartPadded(a[1..], u);
    }
  }

  lemma {:induction false} TrimEndPadded(u: string, b: string)
    requires AllSpace(b)
    requires u == [] || !IsSpace(u[|u| - 1])
    ensures TrimEnd(u + b) == u
    decreases |b|
  {
    if b != [] {
      assert (u + b)[..|u + b| - 1] == u + b[..|b| - 1];
      TrimEndPadded(u, b[..|b| - 1]);
    } else {
      assert u + b == u;
    }
  }

  /** `trim` recovers the core of any string padded with whitespace on both
      sides: together with `Trim`'s contract this pins the result down. */
  lemma TrimPadded(a: string, t: string, b: string)
    requires AllSpace(a) && AllSpace(b) && IsTrimmed(t)
    ensures Trim(a + t + b) == t
  {
    if t == [] {
      assert a + t + b == (a + b) + [];
      TrimStartPadded(a + b, []);
    } else {
      assert a + t + b == a + (t + b);
      TrimStartPadded(a, t + b);
      TrimEndPadded(t, b);
    }
  }

  /** Trimming twice is trimming once. */
  lemma TrimIdempotent(s: string)
    ensures Trim(Trim(s)) == Trim(s)
  {
    TrimOfTrimmed(Trim(s));
  }

  predicate IsDigit(c: char) {
    '0' <= c <= '9'
  }

  predicate AllDigits(s: string) {
    forall k :: 0 <= k < |s| ==> IsDigit(s[k])
  }

  function DigitChar(d: nat): (c: char)
    requires d < 10
    ensures IsDigit(c)
  {
    "0123456789"[d]
  }

  function DigitValue(c: char): (d: nat)
    requires IsDigit(c)
    ensures d < 10
  {
    (c as int - '0' as int)
  }

  /** Decimal value of a string of digits, read most significant first. */
  function DecimalValue(s: string): nat
    requires AllDigits(s)
  {
    if s == [] then 0 else DecimalValue(s[..|s| - 1]) * 10 + DigitValue(s[|s| - 1])
  }

  /** The decimal rendering of a natural number, without leading zeros. */
  function NatToString(n: nat): (r: string)
    ensures r != [] && AllDigits(r)
    ensures |r| > 1 ==> r[0] != '0'
    ensures n < 10 <==> |r| == 1
  {
    if n < 10 then [DigitChar(n)]
    else
      var p := NatToString(n / 10);
      p + [DigitChar(n % 10)]
  }

  /** Reading a rendered number back gives the number. */
  lemma {:induction false} NatToStringRoundTrip(n: nat)
    ensures DecimalValue(NatToString(n)) == n
  {
    if n < 10 {
      assert "0123456789"[n] as int - '0' as int == n;
    } else {
      var p := NatToString(n / 10);
      NatToStringRoundTrip(n / 10);
      var r := p + [DigitChar(n % 10)];
      assert r[..|r| - 1] == p;
      assert "0123456789"[n % 10] as int - '0' as int == n % 10;
    }
  }

  /** `Number.prototype.toString` on an integer: a minus sign before the
      magnitude when negative. */
  function IntToString(n: int): (r: string)
    ensures n >= 0 ==> r == NatToString(n)
    ensures n < 0 ==> r == "-" + NatToString(-n)
  {
    if n < 0 then "-" + NatToString(-n) else NatToString(n)
  }

  /** Reads an integer numeral: digits, or a minus sign followed by digits. */
  function ParseInt(t: string): Option<int> {
    if t != [] && AllDigits(t) then Some(DecimalValue(t))
    else if |t| >= 2 && t[0] == '-' && AllDigits(t[1..]) then Some(-(DecimalValue(t[1..]) as int))
    else None
  }

  /** Reading an integer's rendering back gives the integer, negative ones
      included. */
  lemma IntToStringRoundTrip(n: int)
    ensures ParseInt(IntToString(n)) == Some(n)
  {
    if n >= 0 {
      NatToStringRoundTrip(n);
      DigitsNumeral(NatToString(n));
    } else {
      NatToStringRoundTrip(-n);
      NegatedNumeral(NatToString(-n));
    }
  }

  /** Digits alone read as their value. */
  lemma DigitsNumeral(u: string)
    requires u != [] && AllDigits(u)
    ensures ParseInt(u) == Some(DecimalValue(u) as int)
  {
  }

  /** A minus sign before digits reads as the negated value. */
  lemma NegatedNumeral(u: string)
    requires u != [] && AllDigits(u)
    ensures ParseInt("-" + u) == Some(-(DecimalValue(u) as int))
  {
    var r := "-" + u;
    assert !IsDigit(r[0]);
    assert r[1..] == u;
  }

  /** `s.padStart(width, c)` for a one-character pad string: `c` repeated in
      front until the string is `width` long; longer strings are kept. */
  function PadStart(s: string, width: nat, c: char): (r: string)
    ensures |s| >= width ==> r == s
    ensures |s| < width ==> |r| == width
    ensures |r| >= |s| && r[|r| - |s|..] == s
    ensures forall k :: 0 <= k < |r| - |s| ==> r[k] == c
    decreases width - |s|
  {
    if |s| >= width then s
    else
      var r := PadStart([c] + s, width, c);
      PadOne(s, c, r);
      r
  }

  /** Padding `[c] + s` pads `s` by one more `c`. */
  lemma PadOne(s: string, c: char, r: string)
    requires |r| >= |s| + 1 && r[|r| - |s| - 1..] == [c] + s
    requires forall k :: 0 <= k < |r| - |s| - 1 ==> r[k] == c
    ensures r[|r| - |s|..] == s
    ensures forall k :: 0 <= k < |r| - |s| ==> r[k] == c
  {
    var i := |r| - |s| - 1;
    assert r[i] == r[i..][0] == c;
    assert r[i + 1..] == r[i..][1..];
  }
}
