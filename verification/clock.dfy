/** The per-field match clock: the `m:ss` display of the remaining seconds and
    the one-second countdown step every running field takes. */
module Clock {
  import opened Base
  import opened Text
  import opened Fields

  /** JavaScript's `%`, whose result takes the sign of the dividend. */
  function JsRemainder(a: int, b: int): (r: int)
    requires b > 0
    ensures -b < r < b
    ensures a >= 0 ==> 0 <= r
    ensures a < 0 ==> r <= 0
    ensures (a - r) % b == 0
  {
    if a >= 0 then
      LessRemainder(a, b);
      a % b
    else
      LessRemainder(-a, b);
      NegatedMultiple(-a - (-a) % b, b);
      -((-a) % b)
  }

  /** Taking away the remainder leaves a multiple of the divisor. */
  lemma LessRemainder(a: int, b: int)
    requires b > 0
    ensures (a - a % b) % b == 0
  {
    var d := a / b;
    assert a - a % b == d * b;
    ModOfMultiple(d, b);
  }

  lemma NegatedMultiple(y: int, b: int)
    requires b > 0 && y % b == 0
    ensures (-y) % b == 0
  {
    var d := y / b;
    assert y == d * b;
    assert -y == (-d) * b;
    ModOfMultiple(-d, b);
  }

  /** A multiple of `b` leaves no remainder. */
  lemma ModOfMultiple(q: int, b: int)
    requires b > 0
    ensures (q * b) % b == 0
  {
    var x := q * b;
    var d := x / b;
    var m := x % b;
    assert (q - d) * b == m;
    if q - d >= 1 {
      MulAtLeast(q - d, b);
    } else if q - d <= -1 {
      MulAtLeast(d - q, b);
    }
  }

  lemma MulAtLeast(k: int, b: int)
    requires k >= 1 && b > 0
    ensures k * b >= b
  {
  }

  /** `formatTime`: minutes `Math.floor(seconds / 60)`, then a colon, then the
      remainder of the seconds padded to two characters with `0`. Dafny's `/`
      with a positive divisor is floor division, as `Math.floor` needs. */
  function FormatTime(seconds: int): string {
    IntToString(seconds / 60) + ":" + PadStart(IntToString(JsRemainder(seconds, 60)), 2, '0')
  }

  /** Minutes and seconds of any count: the minutes are `Math.floor` of the
      count over 60 and the seconds take the count's sign, so a negative count
      with a non-zero remainder sits that many seconds below the next minute. */
  lemma SplitMinutes(n: int) returns (mins: int, secs: int)
    ensures mins == n / 60 && secs == JsRemainder(n, 60)
    ensures -60 < secs < 60
    ensures n == if secs < 0 then (mins + 1) * 60 + secs else mins * 60 + secs
  {
    mins := n / 60;
    secs := JsRemainder(n, 60);
    if n < 0 {
      var k := -n;
      var q := k / 60;
      var r := k % 60;
      assert secs == -r;
      if r == 0 {
        assert n == (-q) * 60;
      } else {
        assert n == (-q - 1) * 60 + (60 - r);
      }
    }
  }

  lemma TwoDigitsAtMost(n: nat)
    requires n < 100
    ensures 1 <= |NatToString(n)| <= 2
  {
    if n >= 10 {
      assert |NatToString(n / 10)| == 1;
    }
  }

  /** The display of any count is a minutes numeral, a colon and a seconds
      part. The minutes numeral reads as `Math.floor` of the count over 60. A
      non-negative remainder shows as exactly two digits; a negative one, which
      `padStart` leaves alone, as a minus sign and one or two digits. */
  lemma FormatTimeShape(n: int) returns (m: string, p: string)
    ensures FormatTime(n) == m + ":" + p
    ensures ParseInt(m) == Some(n / 60)
    ensures JsRemainder(n, 60) >= 0 ==>
      |p| == 2 && AllDigits(p) && DecimalValue(p) == JsRemainder(n, 60)
    ensures JsRemainder(n, 60) < 0 ==>
      && 2 <= |p| <= 3 && p[0] == '-' && AllDigits(p[1..])
      && DecimalValue(p[1..]) == -JsRemainder(n, 60)
  {
    var secs := JsRemainder(n, 60);
    m := IntToString(n / 60);
    IntToStringRoundTrip(n / 60);
    p := SecondsPart(secs);
  }

  /** The padded rendering of a remainder `secs` with `-60 < secs < 60`. */
  lemma SecondsPart(secs: int) returns (p: string)
    requires -60 < secs < 60
    ensures p == PadStart(IntToString(secs), 2, '0')
    ensures secs >= 0 ==> |p| == 2 && AllDigits(p) && DecimalValue(p) == secs
    ensures secs < 0 ==>
      && 2 <= |p| <= 3 && p[0] == '-' && AllDigits(p[1..])
      && DecimalValue(p[1..]) == -secs
  {
    if secs >= 0 {
      p := PadStart(NatToString(secs), 2, '0');
      TwoDigitsAtMost(secs);
      NatToStringRoundTrip(secs);
      PaddedValue(NatToString(secs));
    } else {
      p := MinusSeconds(-secs);
    }
  }

  /** A negative remainder is already two characters or more, so padding
      keeps its minus sign and digits. */
  lemma MinusSeconds(k: nat) returns (p: string)
    requires 0 < k < 60
    ensures p == PadStart("-" + NatToString(k), 2, '0')
    ensures 2 <= |p| <= 3 && p[0] == '-' && p[1..] == NatToString(k)
    ensures AllDigits(p[1..]) && DecimalValue(p[1..]) == k
  {
    var u := NatToString(k);
    TwoDigitsAtMost(k);
    NatToStringRoundTrip(k);
    p := "-" + u;
    assert p[1..] == u;
  }

  /** Reads a clock display back. Before the last colon stands an integer
      numeral for the minutes. After it come either two digits below 60,
      counted forward from that minute, or a minus sign and one or two digits
      from 1 to 59, counted back from the next minute. */
  function ParseTime(s: string): Option<int> {
    if |s| >= 4 && s[|s| - 3] == ':' && AllDigits(s[|s| - 2..]) && DecimalValue(s[|s| - 2..]) < 60
       && ParseInt(s[..|s| - 3]).Some?
    then Some(ParseInt(s[..|s| - 3]).value * 60 + DecimalValue(s[|s| - 2..]))
    else if |s| >= 4 && s[|s| - 3] == ':' && s[|s| - 2] == '-' && BackSeconds(s[|s| - 1..])
       && ParseInt(s[..|s| - 3]).Some?
    then Some((ParseInt(s[..|s| - 3]).value + 1) * 60 - DecimalValue(s[|s| - 1..]))
    else if |s| >= 5 && s[|s| - 4] == ':' && s[|s| - 3] == '-' && BackSeconds(s[|s| - 2..])
       && ParseInt(s[..|s| - 4]).Some?
    then Some((ParseInt(s[..|s| - 4]).value + 1) * 60 - DecimalValue(s[|s| - 2..]))
    else None
  }

  /** Digits for a number of seconds from 1 to 59. */
  predicate BackSeconds(u: string) {
    AllDigits(u) && 0 < DecimalValue(u) < 60
  }

  /** The display of every time, negative ones included, determines the
      time: reading it back gives the number of seconds. */
  lemma FormatTimeRoundTrip(n: int)
    ensures ParseTime(FormatTime(n)) == Some(n)
  {
    var mins, secs := SplitMinutes(n);
    var m, p := FormatTimeShape(n);
    if secs >= 0 {
      ParseJoined(FormatTime(n), m, p, n);
    } else {
      var u := p[1..];
      SignSplit(p);
      assert ParseInt(m).value == mins && DecimalValue(u) == -secs;
      ParseJoinedBack(FormatTime(n), m, u, n);
    }
  }

  /** A string starting with a minus sign is that sign before the rest. */
  lemma SignSplit(p: string)
    requires |p| >= 1 && p[0] == '-'
    ensures p == "-" + p[1..]
  {
  }

  /** A minute numeral, a colon and a two-digit seconds value below 60 read
      back as the seconds they denote. */
  lemma ParseJoined(t: string, m: string, p: string, v: int)
    requires ParseInt(m).Some? && |p| == 2 && AllDigits(p) && DecimalValue(p) < 60
    requires t == m + ":" + p && v == ParseInt(m).value * 60 + DecimalValue(p)
    ensures ParseTime(t) == Some(v)
  {
    var i := |m|;
    assert |t| - 3 == i && |t| - 2 == i + 1;
    assert t[..i] == m;
    assert t[i + 1..] == p;
    assert t[i] == ':';
    assert t[..|t| - 3] == m && t[|t| - 2..] == p;
  }

  /** A minute numeral, a colon, a minus sign and one or two digits for 1 to
      59 seconds read back as that many seconds before the next minute. */
  lemma ParseJoinedBack(t: string, m: string, u: string, v: int)
    requires ParseInt(m).Some? && 1 <= |u| <= 2 && BackSeconds(u)
    requires t == m + ":" + ("-" + u) && v == (ParseInt(m).value + 1) * 60 - DecimalValue(u)
    ensures ParseTime(t) == Some(v)
  {
    BackSlices(t, m, u);
    if |u| == 1 {
      ParseBackOne(t, m, u, v);
    } else {
      ParseBackTwo(t, m, u, v);
    }
  }

  /** Where the parts of `m + ":-" + u` sit. */
  lemma BackSlices(t: string, m: string, u: string)
    requires t == m + ":" + ("-" + u)
    ensures |t| == |m| + 2 + |u|
    ensures t[..|m|] == m && t[|m|] == ':' && t[|m| + 1] == '-' && t[|m| + 2..] == u
  {
  }

  /** The reading of a display ending in `:-` and one digit. */
  lemma ParseBackOne(t: string, m: string, u: string, v: int)
    requires ParseInt(m).Some? && |u| == 1 && BackSeconds(u) && |t| == |m| + 3
    requires t[..|m|] == m && t[|m|] == ':' && t[|m| + 1] == '-' && t[|m| + 2..] == u
    requires v == (ParseInt(m).value + 1) * 60 - DecimalValue(u)
    ensures ParseTime(t) == Some(v)
  {
    assert !IsDigit(t[|t| - 2..][0]);
  }

  /** The reading of a display ending in `:-` and two digits. */
  lemma ParseBackTwo(t: string, m: string, u: string, v: int)
    requires ParseInt(m).Some? && |u| == 2 && BackSeconds(u) && |t| == |m| + 4
    requires t[..|m|] == m && t[|m|] == ':' && t[|m| + 1] == '-' && t[|m| + 2..] == u
    requires v == (ParseInt(m).value + 1) * 60 - DecimalValue(u)
    ensures ParseTime(t) == Some(v)
  {
  }

  /** Padding a one- or two-digit string with a leading `0` keeps its value. */
  lemma PaddedValue(d: string)
    requires 1 <= |d| <= 2 && AllDigits(d)
    ensures |PadStart(d, 2, '0')| == 2 && AllDigits(PadStart(d, 2, '0'))
    ensures DecimalValue(PadStart(d, 2, '0')) == DecimalValue(d)
  {
    var p := PadStart(d, 2, '0');
    if |d| == 1 {
      assert p == ['0'] + d;
      assert p[..1] == ['0'] && p[..1][..0] == [];
      assert d[..0] == [];
    }
  }

  /** The countdown registers after one tick, and the fields whose clock ran
      out during it (for each of which the source schedules
      `handleMatchEnd(field.id, 'draw')`). */
  datatype TickResult = TickResult(timers: map<FieldId, int>, expired: seq<FieldId>)

  /** A field's clock runs when it hosts a match and has time left. */
  predicate Ticking(fs: seq<Field>, timers: map<FieldId, int>, k: FieldId) {
    && FindField(fs, k).Some? && FindField(fs, k).value.current.Some?
    && k in timers && timers[k] > 0
  }

  /** One second passing: each field, in order, that hosts a match and has a
      positive timer loses a second; a timer that reaches zero or below is set
      to 0 and the field reported as expired. No timer is created or removed. */
  function Tick(fs: seq<Field>, timers: map<FieldId, int>): (r: TickResult)
    ensures r.timers.Keys == timers.Keys
    ensures forall x :: x in r.expired ==> x in timers
  {
    if fs == [] then TickResult(timers, [])
    else
      var f := fs[0];
      if f.current.Some? && f.id in timers && timers[f.id] > 0 then
        var newTime := timers[f.id] - 1;
        var rest := Tick(fs[1..], timers[f.id := if newTime <= 0 then 0 else newTime]);
        if newTime <= 0 then TickResult(rest.timers, [f.id] + rest.expired) else rest
      else
        Tick(fs[1..], timers)
  }

  /** What one tick does to a single field's clock (field ids being
      distinct): a running clock loses one second, clamped at zero, and is
      reported expired exactly when it reaches zero; every other clock keeps
      its value and is not reported. */
  lemma {:induction false} TickAt(fs: seq<Field>, timers: map<FieldId, int>, k: FieldId)
    requires DistinctIds(fs) && k in timers
    ensures Tick(fs, timers).timers[k]
            == if Ticking(fs, timers, k) then (if timers[k] - 1 <= 0 then 0 else timers[k] - 1)
               else timers[k]
    ensures k in Tick(fs, timers).expired <==> Ticking(fs, timers, k) && timers[k] - 1 <= 0
  {
    if fs != [] {
      var f := fs[0];
      var tail := fs[1..];
      assert DistinctIds(tail);
      if f.id == k {
        assert FindField(tail, k).None? by {
          forall i | 0 <= i < |tail| ensures tail[i].id != k {
            assert tail[i] == fs[i + 1];
          }
        }
        if f.current.Some? && timers[k] > 0 {
          var newTime := timers[k] - 1;
          var t' := timers[k := if newTime <= 0 then 0 else newTime];
          TickAt(tail, t', k);
        } else {
          TickAt(tail, timers, k);
        }
      } else {
        assert FindField(fs, k) == FindField(tail, k);
        if f.current.Some? && f.id in timers && timers[f.id] > 0 {
          var newTime := timers[f.id] - 1;
          var t' := timers[f.id := if newTime <= 0 then 0 else newTime];
          TickAt(tail, t', k);
        } else {
          TickAt(tail, timers, k);
        }
      }
    }
  }

  /** A tick never takes a clock below zero: non-negative timers stay
      non-negative, and a clock already at zero is neither changed nor
      reported again. (A negative match length starts a clock below zero; a
      tick leaves such a clock alone.) */
  lemma TickNonNegative(fs: seq<Field>, timers: map<FieldId, int>)
    requires DistinctIds(fs)
    requires forall k :: k in timers ==> timers[k] >= 0
    ensures forall k :: k in Tick(fs, timers).timers ==> Tick(fs, timers).timers[k] >= 0
    ensures forall k :: k in timers && timers[k] == 0 ==>
      Tick(fs, timers).timers[k] == 0 && k !in Tick(fs, timers).expired
  {
    forall k | k in timers {
      TickAt(fs, timers, k);
    }
  }
}
