/** The `grpc-timeout` header: a number of at most eight digits and a unit. */
module Timeout {
  import opened Bytes
  import opened Decimal

  const MAX_SIZE := 99_999_999
  const BILLION := 1_000_000_000

  datatype Duration = Duration(secs: nat, nanos: nat)

  predicate IsDuration(d: Duration) { d.secs < 0x1_0000_0000_0000_0000 && d.nanos < BILLION }

  function Nanos(d: Duration): (n: nat) { d.secs * BILLION + d.nanos }

  datatype Unit = Nano | Micro | Milli | Second | Minute | Hour

  function UnitChar(u: Unit): (c: char) {
    match u
    case Nano => 'n'
    case Micro => 'u'
    case Milli => 'm'
    case Second => 'S'
    case Minute => 'M'
    case Hour => 'H'
  }

  function UnitNanos(u: Unit): (n: nat)
    ensures n > 0
  {
    match u
    case Nano => 1
    case Micro => 1_000
    case Milli => 1_000_000
    case Second => BILLION
    case Minute => 60_000_000_000
    case Hour => 3_600_000_000_000
  }

  /** The conversions of the standard library, each rounding down. */
  function InUnit(d: Duration, u: Unit): (n: nat) {
    match u
    case Nano => d.secs * BILLION + d.nanos
    case Micro => d.secs * 1_000_000 + d.nanos / 1_000
    case Milli => d.secs * 1_000 + d.nanos / 1_000_000
    case Second => d.secs
    case Minute => d.secs / 60
    case Hour => d.secs / 60 / 60
  }

  function TryFormat(d: Duration, u: Unit): (r: Option<string>) {
    var value := InUnit(d, u);
    if value > MAX_SIZE then None else Some(Print(value) + [UnitChar(u)])
  }

  function OrElse(a: Option<string>, b: Option<string>): (r: Option<string>) { if a.Some? then a else b }

  /** `None`: the duration is unrealistically large and the conversion panics. */
  function ToTimeout(d: Duration): (r: Option<string>) {
    OrElse(TryFormat(d, Nano),
    OrElse(TryFormat(d, Micro),
    OrElse(TryFormat(d, Milli),
    OrElse(TryFormat(d, Second),
    OrElse(TryFormat(d, Minute),
           TryFormat(d, Hour))))))
  }

  // ----- The reader -----

  function ParseUnit(c: char): (r: Option<Unit>) {
    match c
    case 'n' => Some(Nano)
    case 'u' => Some(Micro)
    case 'm' => Some(Milli)
    case 'S' => Some(Second)
    case 'M' => Some(Minute)
    case 'H' => Some(Hour)
    case _ => None
  }

  /** An unsigned number; a leading plus sign is accepted. */
  function ParseNumber(s: string): (r: Option<nat>) {
    var t := if s != [] && s[0] == '+' then s[1..] else s;
    if IsDigits(t) then Some(Value(t)) else None
  }

  function FromUnit(n: nat, u: Unit): (d: Duration)
    ensures d.nanos < BILLION && Nanos(d) == n * UnitNanos(u)
  {
    match u
    case Nano => Duration(n / BILLION, n % BILLION)
    case Micro => Duration(n / 1_000_000, n % 1_000_000 * 1_000)
    case Milli => Duration(n / 1_000, n % 1_000 * 1_000_000)
    case Second => Duration(n, 0)
    case Minute => Duration(n * 60, 0)
    case Hour => Duration(n * 3_600, 0)
  }

  function ParseTimeout(s: string): (r: Option<Duration>) {
    if s == [] then None
    else
      var digits, unit := s[..|s| - 1], s[|s| - 1];
      if |digits| > 8 then None
      else
        match (ParseNumber(digits), ParseUnit(unit))
        case (Some(n), Some(u)) => Some(FromUnit(n, u))
        case _ => None
  }

  // ----- What the reader gets -----

  function OneUp(u: Unit): (r: Unit)
    requires u != Hour
  {
    match u
    case Nano => Micro
    case Micro => Milli
    case Milli => Second
    case Second => Minute
    case Minute => Hour
  }

  /** The first unit, from `u` up, in which the duration fits; hours when none does. */
  function Finest(d: Duration, u: Unit): (r: Unit)
    decreases match u { case Nano => 5 case Micro => 4 case Milli => 3 case Second => 2 case Minute => 1 case Hour => 0 }
  {
    if u == Hour || InUnit(d, u) <= MAX_SIZE then u else Finest(d, OneUp(u))
  }

  /** Every conversion is the total of nanoseconds divided by the unit, rounded down. */
  lemma InUnitIsDivision(d: Duration, u: Unit)
    requires d.nanos < BILLION
    ensures var n, k := InUnit(d, u), UnitNanos(u);
            n * k <= Nanos(d) < (n + 1) * k
  {
  }

  /** A coarser unit never gives a larger number. */
  lemma CoarserIsSmaller(d: Duration, u: Unit)
    requires d.nanos < BILLION && u != Hour
    ensures InUnit(d, OneUp(u)) <= InUnit(d, u)
  {
  }

  lemma FormatReadsBack(n: nat, u: Unit)
    requires n <= MAX_SIZE
    ensures ParseTimeout(Print(n) + [UnitChar(u)]) == Some(FromUnit(n, u))
    ensures |Print(n) + [UnitChar(u)]| <= 9
  {
    var s := Print(n) + [UnitChar(u)];
    assert s[..|s| - 1] == Print(n);
    assert Pow10(8) == 100_000_000 by {
      assert Pow10(2) == 100;
      assert Pow10(4) == 10_000;
      assert Pow10(6) == 1_000_000;
    }
    PrintLength(n, 8);
    ValueOfPrint(n);
  }

  lemma ChosenUnit(d: Duration)
    requires d.nanos < BILLION
    ensures var u := Finest(d, Nano);
            ToTimeout(d) == if InUnit(d, u) <= MAX_SIZE then Some(Print(InUnit(d, u)) + [UnitChar(u)]) else None
    ensures forall v :: UnitNanos(v) < UnitNanos(Finest(d, Nano)) ==> InUnit(d, v) > MAX_SIZE
  {
    hide Print;
    assert InUnit(d, Nano) <= MAX_SIZE ==> Finest(d, Nano) == Nano;
    assert InUnit(d, Nano) > MAX_SIZE ==> Finest(d, Nano) == Finest(d, Micro);
    assert InUnit(d, Micro) > MAX_SIZE ==> Finest(d, Micro) == Finest(d, Milli);
    assert InUnit(d, Milli) > MAX_SIZE ==> Finest(d, Milli) == Finest(d, Second);
    assert InUnit(d, Second) > MAX_SIZE ==> Finest(d, Second) == Finest(d, Minute);
  }

  /** What a server reads from the header that a client wrote. */
  function ReadBack(d: Duration): (n: nat) {
    InUnit(d, Finest(d, Nano)) * UnitNanos(Finest(d, Nano))
  }

  /** A header is written exactly for durations of at most 99,999,999 whole hours. */
  lemma WrittenExactly(d: Duration)
    requires d.nanos < BILLION
    ensures ToTimeout(d).Some? <==> InUnit(d, Hour) <= MAX_SIZE
  {
    hide Print;
    CoarserIsSmaller(d, Nano);
    CoarserIsSmaller(d, Micro);
    CoarserIsSmaller(d, Milli);
    CoarserIsSmaller(d, Second);
    CoarserIsSmaller(d, Minute);
  }

  /**
    Writing and reading a timeout.  The number is at most eight digits, in the
    finest unit that allows it; what is read back never exceeds the duration,
    is exact in nanoseconds, and otherwise falls short by less than one unit,
    which is at most one part in 100,000 of the duration.
   */
  lemma TimeoutRoundTrip(d: Duration)
    requires d.nanos < BILLION && InUnit(d, Hour) <= MAX_SIZE
    ensures var r, u := ToTimeout(d), Finest(d, Nano);
            && r.Some? && |r.value| <= 9 && r.value[|r.value| - 1] == UnitChar(u)
            && ParseTimeout(r.value).Some? && Nanos(ParseTimeout(r.value).value) == ReadBack(d)
            && (forall v :: UnitNanos(v) < UnitNanos(u) ==> InUnit(d, v) > MAX_SIZE)
            && ReadBack(d) <= Nanos(d) < ReadBack(d) + UnitNanos(u)
            && (u == Nano ==> ReadBack(d) == Nanos(d))
            && (u != Nano ==> 100_000 * UnitNanos(u) <= Nanos(d))
  {
    var u := Finest(d, Nano);
    WrittenExactly(d);
    ChosenUnit(d);
    FormatReadsBack(InUnit(d, u), u);
    InUnitIsDivision(d, u);
    if u != Nano {
      UnitIsSmall(d, u);
    }
  }

  /** A unit above nanoseconds is chosen only when the next finer one overflows. */
  lemma UnitIsSmall(d: Duration, u: Unit)
    requires d.nanos < BILLION && u != Nano
    requires forall v :: UnitNanos(v) < UnitNanos(u) ==> InUnit(d, v) > MAX_SIZE
    ensures 100_000 * UnitNanos(u) <= Nanos(d)
  {
    var v := match u case Micro => Nano case Milli => Micro case Second => Milli case Minute => Second case _ => Minute;
    assert UnitNanos(v) < UnitNanos(u);
    InUnitIsDivision(d, v);
  }

  // ----- Order -----

  /** The unit in terms of thresholds on the duration. */
  lemma UnitThresholds(d: Duration)
    requires d.nanos < BILLION
    ensures var n := Nanos(d);
            Finest(d, Nano) ==
            if n < 100_000_000 then Nano
            else if n < 100_000_000_000 then Micro
            else if n < 100_000_000_000_000 then Milli
            else if d.secs < 100_000_000 then Second
            else if d.secs / 60 < 100_000_000 then Minute
            else Hour
  {
    assert InUnit(d, Nano) > MAX_SIZE ==> Finest(d, Nano) == Finest(d, Micro);
    assert InUnit(d, Micro) > MAX_SIZE ==> Finest(d, Micro) == Finest(d, Milli);
    assert InUnit(d, Milli) > MAX_SIZE ==> Finest(d, Milli) == Finest(d, Second);
    assert InUnit(d, Second) > MAX_SIZE ==> Finest(d, Second) == Finest(d, Minute);
    assert InUnit(d, Minute) > MAX_SIZE ==> Finest(d, Minute) == Hour;
  }

  /**
    The two places where a longer duration is read back as a shorter one: 10^8
    seconds are not a whole number of minutes, nor 10^8 minutes of hours.
   */
  predicate Crosses(a: nat, b: nat) { 99_999_960 < a < 100_000_000 <= b < 100_000_020 }

  predicate Reversed(d: Duration, e: Duration) {
    Crosses(d.secs, e.secs) || Crosses(d.secs / 60, e.secs / 60)
  }

  lemma InUnitMonotone(d: Duration, e: Duration, u: Unit)
    requires d.nanos < BILLION && e.nanos < BILLION && Nanos(d) <= Nanos(e)
    ensures InUnit(d, u) <= InUnit(e, u)
  {
    InUnitIsDivision(d, u);
    InUnitIsDivision(e, u);
    assert d.secs <= e.secs;
  }

  /** A threshold that is a whole number of units is not undercut. */
  lemma AtLeast(e: Duration, u: Unit, n: nat)
    requires e.nanos < BILLION && n * UnitNanos(u) <= Nanos(e)
    ensures n <= InUnit(e, u)
  {
    InUnitIsDivision(e, u);
  }

  /** Below 10^5 seconds each unit divides the threshold at which it takes over. */
  lemma FineOrder(d: Duration, e: Duration)
    requires d.nanos < BILLION && e.nanos < BILLION && Nanos(d) <= Nanos(e)
    requires Nanos(d) < 100_000_000_000_000
    ensures ReadBack(d) <= ReadBack(e)
  {
    var u, v := Finest(d, Nano), Finest(e, Nano);
    UnitThresholds(d);
    UnitThresholds(e);
    InUnitIsDivision(d, u);
    hide Finest, InUnit;
    if u == v {
      InUnitMonotone(d, e, u);
    } else {
      match v
      case Nano =>
      case Micro => AtLeast(e, Micro, 100_000);
      case Milli => AtLeast(e, Milli, 100_000);
      case Second => AtLeast(e, Second, 100_000);
      case Minute => AtLeast(e, Minute, 1_666_666);
      case Hour => AtLeast(e, Hour, 1_666_666);
    }
  }

  /** What is read back of whole seconds, from 10^5 seconds on. */
  function Coarse(secs: nat): (r: nat) {
    if secs < 100_000_000 then secs
    else if secs / 60 < 100_000_000 then secs / 60 * 60
    else secs / 60 / 60 * 60 * 60
  }

  lemma ReadBackCoarse(d: Duration)
    requires d.nanos < BILLION && Nanos(d) >= 100_000_000_000_000
    ensures ReadBack(d) == Coarse(d.secs) * BILLION
  {
    UnitThresholds(d);
    hide Finest;
  }

  lemma MinutesOrder(a: nat, b: nat)
    requires a <= b && 100_000_000 <= b && b / 60 < 100_000_000
    ensures Coarse(a) <= Coarse(b) <==> !Crosses(a, b)
  {
    if a >= 100_000_000 {
      assert a / 60 <= b / 60;
    }
  }

  lemma HoursOrder(a: nat, b: nat)
    requires a <= b && b / 60 >= 100_000_000
    ensures Coarse(a) <= Coarse(b) <==> !Crosses(a / 60, b / 60)
  {
    var m, n := a / 60, b / 60;
    assert m <= n && 60 * m <= a;
    assert Coarse(b) == n / 60 * 60 * 60;
    if a < 100_000_000 {
    } else if m < 100_000_000 {
      assert Coarse(a) == m * 60;
    } else {
      assert m / 60 <= n / 60;
    }
  }

  lemma CoarseOrder(a: nat, b: nat)
    requires a <= b
    ensures Coarse(a) <= Coarse(b) <==> !Crosses(a, b) && !Crosses(a / 60, b / 60)
  {
    if b < 100_000_000 {
    } else if b / 60 < 100_000_000 {
      MinutesOrder(a, b);
    } else {
      HoursOrder(a, b);
    }
  }

  /** Order is kept except across those two places. */
  lemma OrderExactly(d: Duration, e: Duration)
    requires d.nanos < BILLION && e.nanos < BILLION && Nanos(d) <= Nanos(e)
    ensures ReadBack(d) <= ReadBack(e) <==> !Reversed(d, e)
  {
    if Nanos(d) < 100_000_000_000_000 {
      FineOrder(d, e);
    } else {
      ReadBackCoarse(d);
      ReadBackCoarse(e);
      hide ReadBack, Coarse;
      CoarseOrder(d.secs, e.secs);
    }
  }

  /** In particular it is kept below 10^8 seconds, and an example shows that it is not kept above. */
  lemma OrderBelow(d: Duration, e: Duration)
    requires d.nanos < BILLION && e.nanos < BILLION && Nanos(d) <= Nanos(e) && e.secs < 100_000_000
    ensures ReadBack(d) <= ReadBack(e)
    ensures ReadBack(Duration(99_999_999, 0)) > ReadBack(Duration(100_000_000, 0))
  {
    hide ReadBack;
    OrderExactly(d, e);
    OrderExactly(Duration(99_999_999, 0), Duration(100_000_000, 0));
  }

  // ----- The text itself -----

  lemma UnitNumbers(d: Duration)
    requires d.nanos < 1_000_000_000
    ensures var n := d.secs * 1_000_000_000 + d.nanos;
            && InUnit(d, Nano) == n && InUnit(d, Micro) == n / 1_000 && InUnit(d, Milli) == n / 1_000_000
            && InUnit(d, Second) == d.secs && InUnit(d, Minute) == d.secs / 60 && InUnit(d, Hour) == d.secs / 3_600
  {
  }

  /** The header text of every duration, in the letters of the protocol. */
  lemma TimeoutText(d: Duration)
    requires d.nanos < 1_000_000_000
    ensures var n := d.secs * 1_000_000_000 + d.nanos;
            ToTimeout(d) ==
            if n < 100_000_000 then Some(Print(n) + "n")
            else if n < 100_000_000_000 then Some(Print(n / 1_000) + "u")
            else if n < 100_000_000_000_000 then Some(Print(n / 1_000_000) + "m")
            else if d.secs < 100_000_000 then Some(Print(d.secs) + "S")
            else if d.secs / 60 < 100_000_000 then Some(Print(d.secs / 60) + "M")
            else if d.secs / 3_600 < 100_000_000 then Some(Print(d.secs / 3_600) + "H")
            else None
  {
    hide ToTimeout, Finest, Print, InUnit;
    ChosenUnit(d);
    UnitThresholds(d);
    UnitNumbers(d);
  }

  function Total(d: Duration): (n: nat) { d.secs * 1_000_000_000 + d.nanos }

  /** `s` reads as a duration of `n` nanoseconds. */
  predicate ReadsAs(s: string, n: nat) {
    ParseTimeout(s).Some? && ParseTimeout(s).value.nanos < 1_000_000_000 && Total(ParseTimeout(s).value) == n
  }

  /** What each letter of the protocol means to the reader. */
  lemma LetterReads(n: nat)
    requires n < 100_000_000
    ensures ReadsAs(Print(n) + "n", n) && ReadsAs(Print(n) + "u", n * 1_000) && ReadsAs(Print(n) + "m", n * 1_000_000)
    ensures ReadsAs(Print(n) + "S", n * 1_000_000_000) && ReadsAs(Print(n) + "M", n * 60_000_000_000)
    ensures ReadsAs(Print(n) + "H", n * 3_600_000_000_000)
  {
    hide Print, ParseTimeout;
    FormatReadsBack(n, Nano);
    FormatReadsBack(n, Micro);
    FormatReadsBack(n, Milli);
    FormatReadsBack(n, Second);
    FormatReadsBack(n, Minute);
    FormatReadsBack(n, Hour);
  }

  /** Which texts the reader takes at all: one of six letters after one to eight digits, or a plus sign and one to seven. */
  lemma ReadExactly(s: string)
    ensures ParseTimeout(s).Some? <==>
            && 2 <= |s| <= 9
            && s[|s| - 1] in {'n', 'u', 'm', 'S', 'M', 'H'}
            && (IsDigits(s[..|s| - 1]) || (s[0] == '+' && IsDigits(s[1..|s| - 1])))
  {
    if s != [] {
      var digits := s[..|s| - 1];
      assert digits != [] ==> digits[0] == s[0] && digits[1..] == s[1..|s| - 1];
    }
  }
}
