/** The text the three tools show: Python's decimal rendering of integers,
    the `{:02d}` format, and the two clock layouts built from it
    (`HH:MM:SS` for the countdown and the alarm label, `MM:SS.cc` for the
    stopwatch). Each layout comes with a reader that recovers the number it
    shows. */
module Display {

  import opened Opt

  predicate IsDigit(c: char) {
    '0' <= c <= '9'
  }

  predicate AllDigits(s: string) {
    forall i :: 0 <= i < |s| ==> IsDigit(s[i])
  }

  function DigitChar(d: nat): (c: char)
    requires d < 10
    ensures IsDigit(c) && c as int - '0' as int == d
  {
    ('0' as int + d) as char
  }

  function DigitValue(c: char): (d: nat)
    requires IsDigit(c)
  {
    c as int - '0' as int
  }

  /** The value of a string of decimal digits, most significant first. */
  function Value(s: string): (v: nat)
    requires AllDigits(s)
    decreases |s|
  {
    if s == [] then 0 else Value(s[..|s| - 1]) * 10 + DigitValue(s[|s| - 1])
  }

  /** Python's str() of a non-negative integer: at least one digit, and no
      leading zero except for 0 itself. */
  function Decimal(n: nat): (r: string)
    ensures AllDigits(r) && |r| >= 1
    ensures r[0] == '0' ==> n == 0
    ensures |r| == 1 <==> n < 10
    decreases n
  {
    if n < 10 then [DigitChar(n)] else Decimal(n / 10) + [DigitChar(n % 10)]
  }

  lemma {:induction false} ValueOfDecimal(n: nat)
    ensures Value(Decimal(n)) == n
    decreases n
  {
    if n >= 10 {
      var p := Decimal(n / 10);
      var r := p + [DigitChar(n % 10)];
      assert Decimal(n) == r;
      assert r[..|r| - 1] == p;
      ValueOfDecimal(n / 10);
    }
  }

  /** Python's `{:02d}`: a non-negative number padded with zeros to two
      digits, a negative one written with its sign and no padding. */
  function Pad2(n: int): (r: string)
    ensures |r| >= 2
    ensures n >= 0 ==> AllDigits(r) && Value(r) == n
    ensures 0 <= n < 100 <==> |r| == 2 && AllDigits(r)
    ensures n < 0 ==> r[0] == '-' && r[1..] == Decimal(-n)
    ensures n >= 10 ==> r == Decimal(n)
  {
    if n < 0 then
      var r := "-" + Decimal(-n);
      assert !IsDigit(r[0]);
      r
    else if n < 10 then
      var r := "0" + Decimal(n);
      assert r[..1] == "0" && Value(r[..1][..0]) == 0;
      r
    else
      ValueOfDecimal(n);
      Decimal(n)
  }

  /** The number of seconds in h hours, m minutes and s seconds. */
  function Seconds(h: int, m: int, s: int): (total: int)
  {
    h * 3600 + m * 60 + s
  }

  /** Hours, minutes and seconds of a count of seconds. The hours are not
      bounded: 100 hours are shown as 100. */
  function SplitHms(r: nat): (t: (nat, nat, nat))
    ensures t.1 < 60 && t.2 < 60
    ensures Seconds(t.0, t.1, t.2) == r
  {
    SplitHmsArith(r);
    (r / 3600, (r % 3600) / 60, r % 60)
  }

  lemma SplitHmsArith(r: nat)
    ensures (r % 3600) / 60 < 60
    ensures (r / 3600) * 3600 + ((r % 3600) / 60) * 60 + r % 60 == r
  {
    var q, x := r / 3600, r % 3600;
    assert r == q * 3600 + x;
    assert x == (x / 60) * 60 + x % 60;
    assert r == (q * 60 + x / 60) * 60 + x % 60;
    assert r % 60 == x % 60;
  }

  /** The split is the only one with minutes and seconds below 60. */
  lemma SplitHmsUnique(r: nat, h: nat, m: nat, s: nat)
    requires m < 60 && s < 60 && Seconds(h, m, s) == r
    ensures SplitHms(r) == (h, m, s)
  {
    var t := SplitHms(r);
    assert (m * 60 + s) < 3600;
    assert (t.1 * 60 + t.2) < 3600;
    assert t.0 == h;
    assert t.1 * 60 + t.2 == m * 60 + s;
    assert t.1 == m;
  }

  /** Three numbers in `{:02d}` form: the first two joined by a colon, the
      last two by the given separator. */
  function ClockText(a: int, b: int, c: int, sep: char): (t: string)
  {
    Pad2(a) + ":" + Pad2(b) + [sep] + Pad2(c)
  }

  /** `HH:MM:SS` for a count of seconds. It reads back as exactly that
      count, and it is eight characters wide exactly below 100 hours. */
  function HmsText(r: nat): (t: string)
    ensures ReadHms(t) == Some(r)
    ensures Canonical(t, ':', 60)
    ensures |t| == 8 <==> r < 360000
  {
    var t := SplitHms(r);
    ReadClockText(t.0, t.1, t.2, ':', 3600, 60);
    ClockTextCanonical(t.0, t.1, t.2, ':', 60);
    ClockText(t.0, t.1, t.2, ':')
  }

  /** Cuts a clock text into its three digit groups: any number of digits, a
      colon, two digits, the separator, two digits. */
  function ClockParts(t: string, sep: char): (r: Option<(string, string, string)>)
    ensures r.Some? ==> AllDigits(r.value.0) && AllDigits(r.value.1) && AllDigits(r.value.2)
  {
    var n := |t|;
    if n >= 7 && t[n - 6] == ':' && t[n - 3] == sep
      && AllDigits(t[..n - 6]) && AllDigits(t[n - 5..n - 3]) && AllDigits(t[n - 2..])
    then Some((t[..n - 6], t[n - 5..n - 3], t[n - 2..]))
    else None
  }

  function Combine(x: nat, y: nat, z: nat, unit1: nat, unit2: nat): (v: nat)
  {
    x * unit1 + y * unit2 + z
  }

  /** Reads a clock text back, weighting its three groups by the given units. */
  function ReadClock(t: string, sep: char, unit1: nat, unit2: nat): (v: Option<int>)
  {
    var p := ClockParts(t, sep);
    if p.Some? then Some(Combine(Value(p.value.0), Value(p.value.1), Value(p.value.2), unit1, unit2)) else None
  }

  function ReadHms(t: string): (v: Option<int>)
  {
    ReadClock(t, ':', 3600, 60)
  }

  /** A clock text cuts back into the three `{:02d}` groups it was built from. */
  lemma ReadClockParts(a: nat, b: nat, c: nat, sep: char)
    requires b < 100 && c < 100
    ensures ClockParts(ClockText(a, b, c, sep), sep) == Some((Pad2(a), Pad2(b), Pad2(c)))
  {
    var x, y, z := Pad2(a), Pad2(b), Pad2(c);
    var t := ClockText(a, b, c, sep);
    var n := |t|;
    assert n == |x| + 6;
    assert t[n - 6] == ':' && t[n - 3] == sep;
    assert t[..n - 6] == x;
    assert t[n - 5..n - 3] == y;
    assert t[n - 2..] == z;
  }

  lemma ReadClockText(a: nat, b: nat, c: nat, sep: char, unit1: nat, unit2: nat)
    requires b < 100 && c < 100
    ensures ReadClock(ClockText(a, b, c, sep), sep, unit1, unit2) == Some(Combine(a, b, c, unit1, unit2))
  {
    ReadClockParts(a, b, c, sep);
  }

  /** A clock text in the layout `{:02d}` gives it: a first group of at least
      two digits with no leading zero beyond two, a middle group below 60 and
      a last group below `top`. Together with the number it reads back as,
      this fixes the text (HmsTextExactly, CentisTextExactly). */
  predicate Canonical(t: string, sep: char, top: nat) {
    var p := ClockParts(t, sep);
    && p.Some?
    && |p.value.0| >= 2 && (|p.value.0| > 2 ==> p.value.0[0] != '0')
    && Value(p.value.1) < 60 && Value(p.value.2) < top
  }

  lemma ClockTextCanonical(a: nat, b: nat, c: nat, sep: char, top: nat)
    requires b < 60 && c < top && c < 100
    ensures Canonical(ClockText(a, b, c, sep), sep, top)
  {
    ReadClockParts(a, b, c, sep);
    var x := Pad2(a);
    if |x| > 2 {
      assert a >= 10;
      assert x == Decimal(a);
    }
  }

  /** A digit string without a leading zero (or the single digit 0) is
      Python's str() of its value. */
  lemma {:induction false} DigitsAreDecimal(x: string)
    requires AllDigits(x) && |x| >= 1 && (|x| > 1 ==> x[0] != '0')
    ensures x == Decimal(Value(x))
    decreases |x|
  {
    if |x| > 1 {
      var p := x[..|x| - 1];
      assert p[0] == x[0];
      DigitsAreDecimal(p);
      if Value(p) == 0 {
        assert false;
      }
      var v := Value(x);
      assert v / 10 == Value(p) && v % 10 == DigitValue(x[|x| - 1]);
      assert DigitChar(v % 10) == x[|x| - 1];
      assert x == p + [x[|x| - 1]];
    }
  }

  /** A digit string of at least two characters, zero-padded only to two,
      is the `{:02d}` text of its value. */
  lemma DigitsArePad2(x: string)
    requires AllDigits(x) && |x| >= 2 && (|x| > 2 ==> x[0] != '0')
    ensures x == Pad2(Value(x))
  {
    var v := Value(x);
    if x[0] != '0' {
      DigitsAreDecimal(x);
      assert |Decimal(v)| >= 2;
      assert Pad2(v) == Decimal(v);
    } else {
      assert |x| == 2;
      var d := x[1];
      assert x[..1][..0] == [];
      assert Value(x[..1]) == 0;
      assert v == DigitValue(d);
      assert [DigitChar(v)] == [d];
      assert Decimal(v) == [d];
      assert x == "0" + [d];
    }
  }

  /** A canonical clock text is the clock text of the values of its groups. */
  lemma CanonicalIsClockText(t: string, sep: char, top: nat)
    requires Canonical(t, sep, top)
    ensures var p := ClockParts(t, sep).value;
            t == ClockText(Value(p.0), Value(p.1), Value(p.2), sep)
  {
    var n := |t|;
    var x, y, z := t[..n - 6], t[n - 5..n - 3], t[n - 2..];
    assert ClockParts(t, sep) == Some((x, y, z));
    DigitsArePad2(x);
    DigitsArePad2(y);
    DigitsArePad2(z);
    assert t == x + ":" + y + [sep] + z;
  }

  /** A text is the countdown text of r exactly when it has the canonical
      layout and reads back as r. */
  lemma HmsTextExactly(t: string, r: nat)
    ensures t == HmsText(r) <==> Canonical(t, ':', 60) && ReadHms(t) == Some(r)
  {
    if Canonical(t, ':', 60) && ReadHms(t) == Some(r) {
      var p := ClockParts(t, ':').value;
      var h, m, x := Value(p.0), Value(p.1), Value(p.2);
      CanonicalIsClockText(t, ':', 60);
      assert Seconds(h, m, x) == r;
      SplitHmsUnique(r, h, m, x);
    }
  }

  /** Minutes, seconds and centiseconds the stopwatch shows for an elapsed
      time of c centiseconds: minutes by floor division, seconds as the
      floor of the non-negative remainder modulo a minute, centiseconds as
      the fractional part of the seconds truncated toward zero, so that they
      carry the sign of a negative elapsed time. */
  function SplitCentis(c: int): (t: (int, int, int))
    ensures 0 <= t.1 < 60
    ensures t.0 * 6000 + t.1 * 100 <= c < t.0 * 6000 + t.1 * 100 + 100
    ensures c >= 0 ==> t.0 >= 0 && 0 <= t.2 < 100 && t.0 * 6000 + t.1 * 100 + t.2 == c
    ensures c < 0 ==> -100 < t.2 <= 0 && (c - t.2) % 100 == 0
  {
    SplitCentisArith(c);
    (c / 6000, (c % 6000) / 100, if c >= 0 then c % 100 else -((-c) % 100))
  }

  lemma SplitCentisArith(c: int)
    ensures 0 <= (c % 6000) / 100 < 60
    ensures (c / 6000) * 6000 + ((c % 6000) / 100) * 100 <= c < (c / 6000) * 6000 + ((c % 6000) / 100) * 100 + 100
    ensures c >= 0 ==> (c / 6000) * 6000 + ((c % 6000) / 100) * 100 + c % 100 == c
    ensures c < 0 ==> (c + (-c) % 100) % 100 == 0
  {
    var q, x := c / 6000, c % 6000;
    assert c == q * 6000 + x;
    assert x == (x / 100) * 100 + x % 100;
    if c >= 0 {
      assert c % 100 == x % 100;
    } else {
      var k := (-c) / 100;
      assert -c == k * 100 + (-c) % 100;
      assert c + (-c) % 100 == -k * 100;
    }
  }

  /** `MM:SS.cc` for an elapsed time of c centiseconds. A non-negative
      elapsed time reads back as exactly itself. */
  function CentisText(c: int): (t: string)
    ensures c >= 0 ==> ReadCentis(t) == Some(c)
  {
    var t := SplitCentis(c);
    if c >= 0 then
      ReadClockText(t.0, t.1, t.2, '.', 6000, 100);
      ClockText(t.0, t.1, t.2, '.')
    else
      ClockText(t.0, t.1, t.2, '.')
  }

  function ReadCentis(t: string): (v: Option<int>)
  {
    ReadClock(t, '.', 6000, 100)
  }

  /** For a non-negative elapsed time the split is the only one with
      seconds below 60 and centiseconds below 100. */
  lemma SplitCentisUnique(c: nat, m: nat, x: nat, k: nat)
    requires x < 60 && k < 100 && m * 6000 + x * 100 + k == c
    ensures SplitCentis(c) == (m, x, k)
  {
    var t := SplitCentis(c);
    assert x * 100 + k < 6000;
    assert t.1 * 100 + t.2 < 6000;
    assert t.0 == m;
    assert t.1 * 100 + t.2 == x * 100 + k;
    assert t.1 == x;
  }

  /** The stopwatch text of a non-negative elapsed time has the canonical
      layout, with centiseconds below 100. */
  lemma CentisTextFields(c: nat)
    ensures Canonical(CentisText(c), '.', 100)
  {
    var t := SplitCentis(c);
    ClockTextCanonical(t.0, t.1, t.2, '.', 100);
  }

  /** A text is the stopwatch text of a non-negative elapsed time c exactly
      when it has the canonical layout and reads back as c. */
  lemma CentisTextExactly(t: string, c: nat)
    ensures t == CentisText(c) <==> Canonical(t, '.', 100) && ReadCentis(t) == Some(c)
  {
    if t == CentisText(c) {
      CentisTextFields(c);
    }
    if Canonical(t, '.', 100) && ReadCentis(t) == Some(c) {
      var p := ClockParts(t, '.').value;
      var m, x, k := Value(p.0), Value(p.1), Value(p.2);
      CanonicalIsClockText(t, '.', 100);
      assert m * 6000 + x * 100 + k == c;
      SplitCentisUnique(c, m, x, k);
    }
  }

  /** The literal texts the tools reset to are the texts of zero. */
  lemma ZeroCentisText()
    ensures CentisText(0) == "00:00.00"
  {
    assert SplitCentis(0) == (0, 0, 0);
    ZeroClockText(0, '.');
  }

  lemma ZeroHmsText()
    ensures HmsText(0) == "00:00:00"
  {
    SplitHmsUnique(0, 0, 0, 0);
    ZeroClockText(0, ':');
  }

  /** The clock text of three zeros. The zero is a parameter pinned by the
      requires rather than a literal: with literal arguments the verifier
      unfolds Pad2 and Decimal at every use of ClockText, which makes the
      lemmas that use this one too expensive to prove. */
  lemma ZeroClockText(z: int, sep: char)
    requires z == 0
    ensures ClockText(z, z, z, sep) == ['0', '0', ':', '0', '0', sep, '0', '0']
  {
    assert Decimal(z) == "0";
    assert Pad2(z) == "00";
  }

}
