/**
 * ErgFilePlot::secsToString (src/Train/ErgFilePlot.cpp): a whole number of
 * seconds shown as "Hh Mm Ss", "Hh Mm", "Mm Ss", "Mm" or "Ss". The split
 * uses C++ int arithmetic, which truncates toward zero, so it is written
 * out here for negative inputs too. ParseDuration reads such a text back
 * and is the partner the round trip is proved against.
 */
module TimeText {

  import opened Wrappers

  /** Floor division of a non-negative number brackets it between two multiples of b. */
  lemma DivBracket(n: nat, b: int)
    requires b > 0
    ensures 0 <= (n / b) * b <= n < (n / b) * b + b
  {
  }

  /**
   * C++ integer division by a positive divisor: the quotient truncates
   * toward zero, so q * b is the multiple of b nearest a on the side of zero.
   */
  function CppDiv(a: int, b: int): (q: int)
    requires b > 0
    ensures a >= 0 ==> 0 <= q * b <= a < q * b + b
    ensures a < 0 ==> a <= q * b < a + b && q <= 0
  {
    if a >= 0 then
      DivBracket(a, b);
      a / b
    else
      var d := (-a) / b;
      DivBracket(-a, b);
      assert (-d) * b == -(d * b);
      -d
  }

  /**
   * C++ remainder by a positive divisor: completes the division identity
   * with CppDiv, is smaller than b in magnitude and takes the sign of a.
   */
  function CppRem(a: int, b: int): (r: int)
    requires b > 0
    ensures CppDiv(a, b) * b + r == a
    ensures -b < r < b
    ensures a >= 0 ==> r >= 0
    ensures a < 0 ==> r <= 0
  {
    if a >= 0 then a % b else -((-a) % b)
  }

  predicate IsDigit(c: char)
  {
    '0' as int <= c as int <= '9' as int
  }

  function DigitChar(d: nat): (c: char)
    requires d < 10
    ensures IsDigit(c) && c as int - '0' as int == d
  {
    ('0' as int + d) as char
  }

  /** The decimal digits of n, most significant first, without leading zeros. */
  function NatToString(n: nat): (s: string)
    ensures |s| >= 1
  {
    if n < 10 then [DigitChar(n)] else NatToString(n / 10) + [DigitChar(n % 10)]
  }

  /** Only 0 is written with a leading '0'. */
  lemma {:induction false} NatToStringNoLeadingZero(n: nat)
    ensures NatToString(n)[0] != '0' || n == 0
  {
    if n >= 10 {
      NatToStringNoLeadingZero(n / 10);
    }
  }

  /**
   * QString::arg on an int: a '-' exactly when n is negative, followed by a
   * run of decimal digits, without leading zeros, whose value is the
   * magnitude of n.
   */
  function IntToString(n: int): (s: string)
    ensures s != [] && (s[0] == '-' <==> n < 0)
    ensures var digits := if n < 0 then s[1..] else s;
      && IsNumeral(digits) && Accumulate(0, digits) == (if n < 0 then -n else n)
      && (|digits| == 1 || digits[0] != '0')
  {
    NatToStringNumeral(if n < 0 then -n else n);
    NatToStringNoLeadingZero(if n < 0 then -n else n);
    if n < 0 then "-" + NatToString(-n) else NatToString(n)
  }

  /**
   * The text shown for a duration of fullSecs seconds. It always ends with a
   * unit letter: 'm' exactly for a positive whole number of minutes, 's'
   * otherwise; it starts with '-' only when a negative input leaves a
   * non-zero seconds remainder.
   */
  function SecsToString(fullSecs: int): (r: string)
    ensures |r| >= 2
    ensures r[|r| - 1] == 'm' <==> fullSecs > 0 && fullSecs % 60 == 0
    ensures r[|r| - 1] == 'm' || r[|r| - 1] == 's'
    ensures r[0] == '-' <==> fullSecs < 0 && fullSecs % 60 != 0
  {
    var secs := CppRem(fullSecs, 60);
    var mins := CppRem(CppDiv(fullSecs, 60), 60);
    var hours := CppDiv(fullSecs, 3600);
    if hours > 0 then
      if secs > 0 then IntToString(hours) + "h " + IntToString(mins) + "m " + IntToString(secs) + "s"
      else IntToString(hours) + "h " + IntToString(mins) + "m"
    else if mins > 0 then
      if secs > 0 then IntToString(mins) + "m " + IntToString(secs) + "s"
      else IntToString(mins) + "m"
    else
      IntToString(secs) + "s"
  }

  // ---------------------------------------------------------------------
  // Reading a duration text back
  // ---------------------------------------------------------------------

  /** The value of a decimal digit; 0 for any other character. */
  function DigitValue(c: char): (d: nat)
    ensures d < 10
  {
    if IsDigit(c) then c as int - '0' as int else 0
  }

  /** The digits of s appended, most significant first, to the number acc. */
  function Accumulate(acc: nat, s: string): nat
    decreases |s|
  {
    if s == [] then acc else Accumulate(acc * 10 + DigitValue(s[0]), s[1..])
  }

  /** Seconds per unit letter: h for hours, m for minutes, s for seconds; None for any other letter. */
  function UnitSeconds(c: char): Option<nat>
  {
    if c == 'h' then Some(3600)
    else if c == 'm' then Some(60)
    else if c == 's' then Some(1)
    else None
  }

  /** A unit letter. */
  predicate IsUnit(c: char)
  {
    UnitSeconds(c).Some?
  }

  /** The seconds in d units of unit letter u. */
  function FieldSeconds(d: nat, u: char): nat
    requires IsUnit(u)
  {
    d * UnitSeconds(u).value
  }

  /** One field read from the front of a text: its value in seconds and the text after its unit letter. */
  datatype Field = Field(seconds: nat, rest: string)

  /**
   * Reads the field at the front of s, one character at a time: digits
   * (value holds those read so far, seen whether there was one), then a unit
   * letter.
   */
  function ScanField(s: string, value: nat, seen: bool): (r: Option<Field>)
    ensures r.Some? ==> |r.value.rest| < |s|
    decreases |s|
  {
    if s == [] then None
    else if IsDigit(s[0]) then ScanField(s[1..], value * 10 + DigitValue(s[0]), true)
    else if seen && IsUnit(s[0]) then Some(Field(FieldSeconds(value, s[0]), s[1..]))
    else None
  }

  /**
   * Reads a duration written as fields "<digits><unit>" separated by single
   * spaces, with unit h, m or s, and returns the total in seconds; None for
   * any other text.
   */
  function ParseDuration(s: string): Option<int>
    decreases |s|
  {
    match ScanField(s, 0, false)
    case None => None
    case Some(f) =>
      if f.rest == [] then Some(f.seconds)
      else if f.rest[0] != ' ' then None
      else
        match ParseDuration(f.rest[1..])
        case Some(t) => Some(f.seconds + t)
        case None => None
  }

  /** Every character of s is a decimal digit. */
  predicate AllDigits(s: string)
  {
    s == [] || (IsDigit(s[0]) && AllDigits(s[1..]))
  }

  /** A non-empty run of decimal digits. */
  predicate IsNumeral(d: string)
  {
    d != [] && AllDigits(d)
  }

  lemma {:induction false} AllDigitsSnoc(d: string, c: char)
    requires AllDigits(d) && IsDigit(c)
    ensures AllDigits(d + [c])
    decreases |d|
  {
    if d != [] {
      assert (d + [c])[1..] == d[1..] + [c];
      AllDigitsSnoc(d[1..], c);
    }
  }

  /** Appending a digit multiplies the accumulated value by ten and adds the digit. */
  lemma {:induction false} AccumulateSnoc(acc: nat, d: string, c: char)
    ensures Accumulate(acc, d + [c]) == Accumulate(acc, d) * 10 + DigitValue(c)
    decreases |d|
  {
    if d == [] {
      assert Accumulate(acc * 10 + DigitValue(c), []) == acc * 10 + DigitValue(c);
    } else {
      assert (d + [c])[1..] == d[1..] + [c];
      AccumulateSnoc(acc * 10 + DigitValue(d[0]), d[1..], c);
    }
  }

  /** NatToString writes a numeral whose value is n. */
  lemma {:induction false} NatToStringNumeral(n: nat)
    ensures IsNumeral(NatToString(n)) && Accumulate(0, NatToString(n)) == n
  {
    var c := DigitChar(n % 10);
    if n < 10 {
      assert Accumulate(0, [c]) == Accumulate(DigitValue(c), []);
    } else {
      NatToStringNumeral(n / 10);
      AllDigitsSnoc(NatToString(n / 10), c);
      AccumulateSnoc(0, NatToString(n / 10), c);
    }
  }

  /** A run of digits followed by a unit letter is scanned as one field. */
  lemma {:induction false} ScanDigits(d: string, u: char, rest: string, value: nat, seen: bool)
    requires AllDigits(d) && IsUnit(u) && (seen || d != [])
    ensures ScanField(d + [u] + rest, value, seen) == Some(Field(FieldSeconds(Accumulate(value, d), u), rest))
    decreases |d|
  {
    var s := d + [u] + rest;
    if d == [] {
      assert s[0] == u && s[1..] == rest;
    } else {
      assert s[0] == d[0] && s[1..] == d[1..] + [u] + rest;
      ScanDigits(d[1..], u, rest, value * 10 + DigitValue(d[0]), true);
    }
  }

  /** A text that is a single field "<d><unit>" reads as d's value in units. */
  lemma ParseLastField(d: string, u: char)
    requires IsNumeral(d) && IsUnit(u)
    ensures ParseDuration(d + [u]) == Some(FieldSeconds(Accumulate(0, d), u))
  {
    ScanDigits(d, u, [], 0, false);
    assert d + [u] + [] == d + [u];
  }

  /** One field, a space and a readable rest read as the field's value plus the rest's. */
  lemma ParseStep(s: string, v: nat, r: string, t: int)
    requires ScanField(s, 0, false) == Some(Field(v, r)) && r != [] && r[0] == ' '
    requires ParseDuration(r[1..]) == Some(t)
    ensures ParseDuration(s) == Some(v + t)
  {
  }

  /** A field "<d><unit>", a space and a readable rest read as d's value in units plus the rest. */
  lemma ParseFieldThen(d: string, u: char, rest: string, t: int, whole: string, total: int)
    requires IsNumeral(d) && IsUnit(u) && ParseDuration(rest) == Some(t)
    requires whole == d + [u] + ([' '] + rest) && total == FieldSeconds(Accumulate(0, d), u) + t
    ensures ParseDuration(whole) == Some(total)
  {
    var r := [' '] + rest;
    assert r[1..] == rest;
    ScanDigits(d, u, r, 0, false);
    ParseStep(whole, FieldSeconds(Accumulate(0, d), u), r, t);
  }

  /** hours * 3600 + minutes * 60 + seconds recombine to the whole. */
  lemma SplitSeconds(s: nat)
    ensures (s / 3600) * 3600 + ((s / 60) % 60) * 60 + s % 60 == s
    ensures s / 3600 == (s / 60) / 60
  {
    var q, r := s / 60, s % 60;
    var q2, r2 := q / 60, q % 60;
    assert s == 60 * q + r;
    assert q == 60 * q2 + r2;
    assert s == 3600 * q2 + (60 * r2 + r);
    assert 0 <= 60 * r2 + r < 3600;
  }

  /** A field as shown: an amount and its unit letter. */
  datatype Part = Part(amount: nat, unit: char)

  /** Every part carries one of the unit letters h, m, s. */
  predicate ValidUnits(parts: seq<Part>)
  {
    forall i :: 0 <= i < |parts| ==> IsUnit(parts[i].unit)
  }

  /** The parts written "<amount><unit>", separated by single spaces. */
  function Render(parts: seq<Part>): string
  {
    if parts == [] then []
    else if |parts| == 1 then NatToString(parts[0].amount) + [parts[0].unit]
    else NatToString(parts[0].amount) + [parts[0].unit] + ([' '] + Render(parts[1..]))
  }

  /** The seconds the parts add up to. */
  function Total(parts: seq<Part>): nat
    requires ValidUnits(parts)
  {
    if parts == [] then 0 else FieldSeconds(parts[0].amount, parts[0].unit) + Total(parts[1..])
  }

  /** A single part, rendered, reads back as its seconds. */
  lemma ParseRenderOne(p: Part)
    requires IsUnit(p.unit)
    ensures ParseDuration(Render([p])) == Some(Total([p]))
  {
    NatToStringNumeral(p.amount);
    ParseLastField(NatToString(p.amount), p.unit);
  }

  /** A part in front of a readable rendering reads as its seconds plus the rendering's. */
  lemma ParseRenderCons(parts: seq<Part>)
    requires |parts| >= 2 && ValidUnits(parts)
    requires ParseDuration(Render(parts[1..])) == Some(Total(parts[1..]))
    ensures ParseDuration(Render(parts)) == Some(Total(parts))
  {
    var p, tail := parts[0], parts[1..];
    var d := NatToString(p.amount);
    NatToStringNumeral(p.amount);
    ParseFieldThen(d, p.unit, Render(tail), Total(tail), Render(parts), Total(parts));
  }

  /** Any non-empty list of parts, rendered, reads back as its total. */
  lemma {:induction false} ParseRender(parts: seq<Part>)
    requires parts != [] && ValidUnits(parts)
    ensures ParseDuration(Render(parts)) == Some(Total(parts))
    decreases |parts|
  {
    if |parts| == 1 {
      assert parts == [parts[0]];
      ParseRenderOne(parts[0]);
    } else {
      ParseRender(parts[1..]);
      ParseRenderCons(parts);
    }
  }

  /** The parts secsToString shows for a non-negative duration. */
  function ShownParts(s: nat): (parts: seq<Part>)
    ensures parts != [] && ValidUnits(parts)
  {
    var hours, mins, secs := s / 3600, (s / 60) % 60, s % 60;
    if hours > 0 then
      if secs > 0 then [Part(hours, 'h'), Part(mins, 'm'), Part(secs, 's')]
      else [Part(hours, 'h'), Part(mins, 'm')]
    else if mins > 0 then
      if secs > 0 then [Part(mins, 'm'), Part(secs, 's')]
      else [Part(mins, 'm')]
    else [Part(secs, 's')]
  }

  /** Two parts render as "<a><u> <b><w>". */
  lemma RenderTwo(p: Part, q: Part)
    ensures Render([p, q]) == NatToString(p.amount) + [p.unit] + " " + NatToString(q.amount) + [q.unit]
  {
    assert [p, q][1..] == [q];
  }

  /** Three parts render as "<a><u> <b><v> <c><w>". */
  lemma RenderThree(p: Part, q: Part, r: Part)
    ensures Render([p, q, r]) == NatToString(p.amount) + [p.unit] + " " + NatToString(q.amount) + [q.unit]
      + " " + NatToString(r.amount) + [r.unit]
  {
    assert [p, q, r][1..] == [q, r];
    RenderTwo(q, r);
  }

  /** The shown parts add up to the whole duration: nothing is lost or counted twice. */
  lemma ShownPartsTotal(s: nat)
    ensures Total(ShownParts(s)) == s
  {
    SplitSeconds(s);
    var hours, mins, secs := s / 3600, (s / 60) % 60, s % 60;
    var h, m, x := Part(hours, 'h'), Part(mins, 'm'), Part(secs, 's');
    assert [h, m, x][1..] == [m, x] && [m, x][1..] == [x] && [h, m][1..] == [m];
    assert Total([x]) == secs;
    assert Total([m]) == mins * 60;
    assert Total([m, x]) == mins * 60 + secs;
    assert Total([h, m]) == hours * 3600 + mins * 60;
    assert Total([h, m, x]) == hours * 3600 + mins * 60 + secs;
  }

  /** With hours and seconds, secsToString writes its three shown parts. */
  lemma RendersHoursMinutesSeconds(s: nat)
    requires s / 3600 > 0 && s % 60 > 0
    ensures SecsToString(s) == Render(ShownParts(s))
  {
    var hours, mins, secs := s / 3600, (s / 60) % 60, s % 60;
    assert CppRem(s, 60) == secs && CppDiv(s, 3600) == hours && CppRem(CppDiv(s, 60), 60) == mins;
    var h, m, x := Part(hours, 'h'), Part(mins, 'm'), Part(secs, 's');
    assert ShownParts(s) == [h, m, x];
    RenderThree(h, m, x);
  }

  /** With hours and no seconds, secsToString writes hours and minutes. */
  lemma RendersHoursMinutes(s: nat)
    requires s / 3600 > 0 && s % 60 == 0
    ensures SecsToString(s) == Render(ShownParts(s))
  {
    var hours, mins := s / 3600, (s / 60) % 60;
    assert CppRem(s, 60) == 0 && CppDiv(s, 3600) == hours && CppRem(CppDiv(s, 60), 60) == mins;
    var h, m := Part(hours, 'h'), Part(mins, 'm');
    assert ShownParts(s) == [h, m];
    RenderTwo(h, m);
  }

  /** Under an hour, secsToString writes its shown parts. */
  lemma RendersWithoutHours(s: nat)
    requires s / 3600 == 0
    ensures SecsToString(s) == Render(ShownParts(s))
  {
    var mins, secs := (s / 60) % 60, s % 60;
    assert CppRem(s, 60) == secs && CppDiv(s, 3600) == 0 && CppRem(CppDiv(s, 60), 60) == mins;
    var m, x := Part(mins, 'm'), Part(secs, 's');
    if mins > 0 && secs > 0 {
      assert ShownParts(s) == [m, x];
      RenderTwo(m, x);
    } else if mins > 0 {
      assert ShownParts(s) == [m];
    } else {
      assert ShownParts(s) == [x];
    }
  }

  /** secsToString writes exactly its shown parts. */
  lemma SecsToStringRenders(s: nat)
    ensures SecsToString(s) == Render(ShownParts(s))
  {
    if s / 3600 > 0 && s % 60 > 0 {
      RendersHoursMinutesSeconds(s);
    } else if s / 3600 > 0 {
      RendersHoursMinutes(s);
    } else {
      RendersWithoutHours(s);
    }
  }

  /** Reading the text back gives the duration: no non-negative duration is shown ambiguously. */
  lemma SecsToStringRoundTrip(s: nat)
    ensures ParseDuration(SecsToString(s)) == Some(s)
  {
    SecsToStringRenders(s);
    ParseRender(ShownParts(s));
    ShownPartsTotal(s);
  }

  /**
   * A negative duration loses its hours and minutes: C++ truncation makes
   * both non-positive, so only the (non-positive) seconds remainder is shown.
   */
  lemma SecsToStringNegative(s: int)
    requires s < 0
    ensures SecsToString(s) == IntToString(-((-s) % 60)) + "s"
  {
  }

  /** Sample outputs, including a negative duration that drops its minute. */
  lemma SecsToStringExamples()
    ensures SecsToString(0) == "0s"
    ensures SecsToString(45) == "45s"
    ensures SecsToString(120) == "2m"
    ensures SecsToString(3605) == "1h 0m 5s"
    ensures SecsToString(-65) == "-5s"
  {
  }
}
