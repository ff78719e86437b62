/** The three HTTP-date formats of section 5.6.7 of RFC 9110. */
module HttpDate {
  import opened Options
  import opened HttpText
  import opened Chunks
  import opened CivilDate

  const SHORT_DAYS: seq<string> := ["Sun", "Mon", "Tue", "Wed", "Thu", "Fri", "Sat"]
  const LONG_DAYS: seq<string> := ["Sunday", "Monday", "Tuesday", "Wednesday", "Thursday", "Friday", "Saturday"]
  const MONTHS: seq<string> := ["Jan", "Feb", "Mar", "Apr", "May", "Jun", "Jul", "Aug", "Sep", "Oct", "Nov", "Dec"]

  /** Position of a name, or -1. */
  function IndexFrom(s: string, names: seq<string>, i: nat): (k: int)
    requires i <= |names|
    ensures k == -1 || (i <= k < |names| && names[k] == s)
    ensures forall j | i <= j < (if k == -1 then |names| else k) :: names[j] != s
    decreases |names| - i
  {
    if i == |names| then -1 else if names[i] == s then i else IndexFrom(s, names, i + 1)
  }

  method IndexIn(s: string, names: seq<string>) returns (k: int)
    ensures k == IndexFrom(s, names, 0)
    ensures if k == -1 then s !in names else 0 <= k < |names| && names[k] == s && s !in names[..k]
  {
    for i := 0 to |names|
      invariant IndexFrom(s, names, i) == IndexFrom(s, names, 0)
    {
      if names[i] == s { return i; }
    }
    return -1;
  }

  // ---- the parser ------------------------------------------------------------------------

  /** The parts of a date before they are judged. */
  datatype Parts = Parts(weekday: int, day: string, month: string, year: int, time: string)

  function ImfParts(v: string): (r: Option<Parts>)
    requires |v| == 29
    ensures r.Some? ==> |r.value.time| == 8
  {
    if v[4] != ' ' || v[7] != ' ' || v[11] != ' ' || v[16] != ' ' || v[25] != ' ' || Mid(v, 26, 3) != "GMT" then None
    else
      var year := ParseDigits(Mid(v, 12, 4));
      if year.None? then None
      else Some(Parts(IndexFrom(Mid(v, 0, 3), SHORT_DAYS, 0), Mid(v, 5, 2), Mid(v, 8, 3), year.value, Mid(v, 17, 8)))
  }

  function AsctimeParts(v: string): (r: Option<Parts>)
    requires |v| == 24
    ensures r.Some? ==> |r.value.time| == 8
  {
    if v[7] != ' ' || v[10] != ' ' || v[19] != ' ' then None
    else
      var day := if v[8] == ' ' then Mid(v, 9, 1) else Mid(v, 8, 2);
      var year := ParseDigits(Mid(v, 20, 4));
      if year.None? then None
      else Some(Parts(IndexFrom(Mid(v, 0, 3), SHORT_DAYS, 0), day, Mid(v, 4, 3), year.value, Mid(v, 11, 8)))
  }

  function Rfc850Parts(v: string, now: nat): (r: Option<Parts>)
    ensures r.Some? ==> |r.value.time| == 8
  {
    var comma := Find(v, ',', 0);
    if comma == |v| then None
    else
      var rest := v[comma + 1..];
      if |rest| != 23 || rest[0] != ' ' || rest[3] != '-' || rest[7] != '-' || rest[10] != ' ' || rest[19] != ' '
         || Mid(rest, 20, 3) != "GMT" then None
      else
        var yy := ParseDigits(Mid(rest, 8, 2));
        if yy.None? then None
        else
          TwoDigits(Mid(rest, 8, 2));
          Some(Parts(IndexFrom(v[..comma], LONG_DAYS, 0), Mid(rest, 1, 2), Mid(rest, 4, 3),
                     ResolveTwoDigitYear(yy.value, now), Mid(rest, 11, 8)))
  }

  datatype Moment = Moment(date: Date, hour: nat, minute: nat, second: nat)

  function Weekday(days: int): int {
    (Rem(days, 7) + 7 + 4) % 7
  }

  function Instant(t: Moment): int
    requires Valid(t.date)
  {
    Days(t.date) * 86400 + t.hour * 3600 + t.minute * 60 + t.second
  }

  /** The moment the parts name, if they name one. */
  function MomentOf(p: Parts): (r: Option<Moment>)
    requires |p.time| == 8
    ensures r.Some? ==> Valid(r.value.date)
  {
    var month := IndexFrom(p.month, MONTHS, 0) + 1;
    var day, time := ParseDigits(p.day), p.time;
    var hour, minute := ParseDigits(Mid(time, 0, 2)), ParseDigits(Mid(time, 3, 2));
    var second := ParseDigits(Mid(time, 6, 2));
    if p.weekday < 0 || month < 1 then None
    else if p.day == "" || time[2] != ':' || time[5] != ':' then None
    else if day.None? || hour.None? || minute.None? || second.None? then None
    else if day.value < 1 || day.value > DaysInMonth(p.year, month) then None
    else if hour.value > 23 || minute.value > 59 || second.value > 59 then None
    else
      var date := Date(p.year, month, day.value);
      if Weekday(Days(date)) != p.weekday then None else Some(Moment(date, hour.value, minute.value, second.value))
  }

  function ReadParts(v: string, now: nat): (r: Option<Parts>)
    ensures r.Some? ==> |r.value.time| == 8
  {
    if |v| == 29 && v[3] == ',' then ImfParts(v)
    else if |v| == 24 && v[3] == ' ' then AsctimeParts(v)
    else Rfc850Parts(v, now)
  }

  function ParseMoment(v: string, now: nat): (r: Option<Moment>)
    ensures r.Some? ==> Valid(r.value.date)
  {
    var parts := ReadParts(v, now);
    if parts.None? then None else MomentOf(parts.value)
  }

  function ParseHttpDateSeconds(value: string, now: nat): Option<int> {
    var t := ParseMoment(Trim(value), now);
    if t.None? then None else Some(Instant(t.value))
  }

  // ---- the printed forms --------------------------------------------------------------------

  predicate IsMoment(t: Moment) {
    Valid(t.date) && 0 <= t.date.year <= 9999 && t.hour <= 23 && t.minute <= 59 && t.second <= 59
  }

  function DayIndex(t: Moment): (k: nat)
    requires Valid(t.date)
    ensures k < 7
  {
    Weekday(Days(t.date))
  }

  function MonthName(t: Moment): (s: string)
    requires Valid(t.date)
    ensures |s| == 3
  {
    MONTHS[t.date.month - 1]
  }

  function Time(t: Moment): (s: string)
    requires t.hour <= 23 && t.minute <= 59 && t.second <= 59
    ensures |s| == 8
  {
    Two(t.hour) + ":" + Two(t.minute) + ":" + Two(t.second)
  }

  function ShortDay(t: Moment): (s: string)
    requires Valid(t.date)
    ensures |s| == 3
  {
    SHORT_DAYS[DayIndex(t)]
  }

  datatype Form = ImfFixdate | Rfc850 | Asctime(zero: bool)

  /** A day below ten is padded with a space, or, tolerated by the parser, with a zero. */
  function PaddedDay(day: nat, zero: bool): (s: string)
    requires day < 100
    ensures |s| == 2
  {
    if day < 10 && !zero then [' ', Digit(day)] else Two(day)
  }

  function Pieces(form: Form, t: Moment): seq<string>
    requires IsMoment(t)
  {
    match form
    case ImfFixdate =>
      [ShortDay(t), ", ", Two(t.date.day), " ", MonthName(t), " ", Four(t.date.year), " ", Time(t), " GMT"]
    case Rfc850 =>
      [LONG_DAYS[DayIndex(t)], ",", " ", Two(t.date.day), "-", MonthName(t), "-", Two(t.date.year % 100), " ", Time(t),
       " GMT"]
    case Asctime(zero) =>
      [ShortDay(t), " ", MonthName(t), " ", PaddedDay(t.date.day, zero), " ", Time(t), " ", Four(t.date.year)]
  }

  function Printed(form: Form, t: Moment): string
    requires IsMoment(t)
  {
    Join(Pieces(form, t))
  }

  // ---- what the parts mean ---------------------------------------------------------------------

  lemma {:induction false} IndexOfName(names: seq<string>, k: nat, i: nat)
    requires i <= k < |names| && forall j | i <= j < k :: names[j] != names[k]
    ensures IndexFrom(names[k], names, i) == k
    decreases k - i
  {
    if i < k { IndexOfName(names, k, i + 1); }
  }

  lemma TimeParts(t: Moment)
    requires t.hour <= 23 && t.minute <= 59 && t.second <= 59
    ensures var s := Time(t);
            && Mid(s, 0, 2) == Two(t.hour) && Mid(s, 3, 2) == Two(t.minute) && Mid(s, 6, 2) == Two(t.second)
            && s[2] == ':' && s[5] == ':'
  {}

  lemma MonthIndex(m: nat)
    requires m < 12
    ensures IndexFrom(MONTHS[m], MONTHS, 0) == m
  {
    IndexOfName(MONTHS, m, 0);
  }

  /** Parts that were taken from a printed moment name that moment. */
  lemma PartsOfMoment(t: Moment, day: string)
    requires IsMoment(t) && day != "" && ParseDigits(day) == Some(t.date.day)
    ensures MomentOf(Parts(DayIndex(t), day, MonthName(t), t.date.year, Time(t))) == Some(t)
  {
    hide IndexFrom, ParseDigits, Days, Weekday, Mid, Two;
    MonthIndex(t.date.month - 1);
    TimeParts(t);
    ParseTwo(t.hour);
    ParseTwo(t.minute);
    ParseTwo(t.second);
  }

  // ---- printing, then parsing ----------------------------------------------------------------------

  /** Each piece stands where the parser looks for it. */
  lemma ImfPieces(t: Moment)
    requires IsMoment(t)
    ensures var v := Printed(ImfFixdate, t);
            && |v| == 29 && Mid(v, 0, 3) == ShortDay(t) && Mid(v, 3, 2) == ", " && Mid(v, 5, 2) == Two(t.date.day)
            && Mid(v, 7, 1) == " " && Mid(v, 8, 3) == MonthName(t) && Mid(v, 11, 1) == " "
            && Mid(v, 12, 4) == Four(t.date.year) && Mid(v, 16, 1) == " " && Mid(v, 17, 8) == Time(t)
            && Mid(v, 25, 4) == " GMT"
  {
    var c := Pieces(ImfFixdate, t);
    ImfOffsets(t);
    hide *;
    PieceAt(c, 0);
    PieceAt(c, 1);
    PieceAt(c, 2);
    PieceAt(c, 3);
    PieceAt(c, 4);
    PieceAt(c, 5);
    PieceAt(c, 6);
    PieceAt(c, 7);
    PieceAt(c, 8);
    PieceAt(c, 9);
    LengthOf(c);
  }

  lemma ImfOffsets(t: Moment)
    requires IsMoment(t)
    ensures var c := Pieces(ImfFixdate, t);
            && |c| == 10 && Offset(c, 0) == 0 && Offset(c, 1) == 3 && Offset(c, 2) == 5 && Offset(c, 3) == 7
            && Offset(c, 4) == 8 && Offset(c, 5) == 11 && Offset(c, 6) == 12 && Offset(c, 7) == 16
            && Offset(c, 8) == 17 && Offset(c, 9) == 25 && Offset(c, 10) == 29
            && Printed(ImfFixdate, t) == Join(c)
            && c[0] == ShortDay(t) && c[1] == ", " && c[2] == Two(t.date.day) && c[3] == " " && c[4] == MonthName(t)
            && c[5] == " " && c[6] == Four(t.date.year) && c[7] == " " && c[8] == Time(t) && c[9] == " GMT"
            && |c[0]| == 3 && |c[1]| == 2 && |c[2]| == 2 && |c[3]| == 1 && |c[4]| == 3
            && |c[5]| == 1 && |c[6]| == 4 && |c[7]| == 1 && |c[8]| == 8 && |c[9]| == 4
  {
    hide ShortDay, MonthName, Time, Two, Four, Join, IsMoment;
    var c := Pieces(ImfFixdate, t);
    assert Offset(c, 1) == 3 && Offset(c, 2) == 5;
    assert Offset(c, 3) == 7 && Offset(c, 4) == 8;
    assert Offset(c, 5) == 11 && Offset(c, 6) == 12;
    assert Offset(c, 7) == 16 && Offset(c, 8) == 17;
    assert Offset(c, 9) == 25 && Offset(c, 10) == 29;
  }

  lemma ShortDayIndex(t: Moment)
    requires Valid(t.date)
    ensures IndexFrom(ShortDay(t), SHORT_DAYS, 0) == DayIndex(t)
  {
    hide DayIndex;
    IndexOfName(SHORT_DAYS, DayIndex(t), 0);
  }

  lemma ParsesImf(t: Moment, now: nat)
    requires IsMoment(t)
    ensures ParseMoment(Printed(ImfFixdate, t), now) == Some(t)
  {
    hide Printed, ShortDay, MonthName, Time, Two, Four, IndexFrom, ParseDigits, MomentOf, DayIndex;
    ImfPieces(t);
    var v := Printed(ImfFixdate, t);
    assert v[3] == Mid(v, 3, 2)[0] && v[4] == Mid(v, 3, 2)[1] && v[7] == Mid(v, 7, 1)[0] && v[11] == Mid(v, 11, 1)[0];
    assert v[16] == Mid(v, 16, 1)[0] && v[25] == Mid(v, 25, 4)[0] && Mid(v, 26, 3) == Mid(v, 25, 4)[1..];
    ShortDayIndex(t);
    ParseFour(t.date.year);
    ParseTwo(t.date.day);
    PartsOfMoment(t, Two(t.date.day));
  }

  lemma AsctimeOffsets(t: Moment, zero: bool)
    requires IsMoment(t)
    ensures var c := Pieces(Asctime(zero), t);
            && |c| == 9 && Offset(c, 0) == 0 && Offset(c, 1) == 3 && Offset(c, 2) == 4 && Offset(c, 3) == 7
            && Offset(c, 4) == 8 && Offset(c, 5) == 10 && Offset(c, 6) == 11 && Offset(c, 7) == 19
            && Offset(c, 8) == 20 && Offset(c, 9) == 24
            && Printed(Asctime(zero), t) == Join(c)
            && c[0] == ShortDay(t) && c[1] == " " && c[2] == MonthName(t) && c[3] == " "
            && c[4] == PaddedDay(t.date.day, zero)
            && c[5] == " " && c[6] == Time(t) && c[7] == " " && c[8] == Four(t.date.year)
            && |c[0]| == 3 && |c[1]| == 1 && |c[2]| == 3 && |c[3]| == 1 && |c[4]| == 2
            && |c[5]| == 1 && |c[6]| == 8 && |c[7]| == 1 && |c[8]| == 4
  {
    hide ShortDay, MonthName, Time, PaddedDay, Two, Four, Join, IsMoment;
    var c := Pieces(Asctime(zero), t);
    assert Offset(c, 1) == 3 && Offset(c, 2) == 4;
    assert Offset(c, 3) == 7 && Offset(c, 4) == 8;
    assert Offset(c, 5) == 10 && Offset(c, 6) == 11;
    assert Offset(c, 7) == 19 && Offset(c, 8) == 20;
    assert Offset(c, 9) == 24;
  }

  lemma AsctimePieces(t: Moment, zero: bool)
    requires IsMoment(t)
    ensures var v := Printed(Asctime(zero), t);
            && |v| == 24 && Mid(v, 0, 3) == ShortDay(t) && Mid(v, 3, 1) == " " && Mid(v, 4, 3) == MonthName(t)
            && Mid(v, 7, 1) == " " && Mid(v, 8, 2) == PaddedDay(t.date.day, zero) && Mid(v, 10, 1) == " "
            && Mid(v, 11, 8) == Time(t) && Mid(v, 19, 1) == " " && Mid(v, 20, 4) == Four(t.date.year)
  {
    var c := Pieces(Asctime(zero), t);
    AsctimeOffsets(t, zero);
    hide *;
    PieceAt(c, 0);
    PieceAt(c, 1);
    PieceAt(c, 2);
    PieceAt(c, 3);
    PieceAt(c, 4);
    PieceAt(c, 5);
    PieceAt(c, 6);
    PieceAt(c, 7);
    PieceAt(c, 8);
    LengthOf(c);
  }

  lemma ParsesAsctime(t: Moment, zero: bool, now: nat)
    requires IsMoment(t)
    ensures ParseMoment(Printed(Asctime(zero), t), now) == Some(t)
  {
    hide Printed, ShortDay, MonthName, Time, Four, IndexFrom, ParseDigits, MomentOf, DayIndex;
    AsctimePieces(t, zero);
    var v, day := Printed(Asctime(zero), t), t.date.day;
    assert v[3] == Mid(v, 3, 1)[0] && v[7] == Mid(v, 7, 1)[0] && v[10] == Mid(v, 10, 1)[0] && v[19] == Mid(v, 19, 1)[0];
    assert v[8] == PaddedDay(day, zero)[0] && Mid(v, 9, 1) == PaddedDay(day, zero)[1..];
    ShortDayIndex(t);
    ParseFour(t.date.year);
    if day < 10 && !zero {
      ParseOne(day);
      PartsOfMoment(t, [Digit(day)]);
    } else {
      ParseTwo(day);
      assert v[8] != ' ';
      PartsOfMoment(t, Two(day));
    }
  }

  // The text after the comma of the third form.

  function Tail850(t: Moment): seq<string>
    requires IsMoment(t)
  {
    Pieces(Rfc850, t)[2..]
  }

  lemma Rfc850Printed(t: Moment)
    requires IsMoment(t)
    ensures Printed(Rfc850, t) == LONG_DAYS[DayIndex(t)] + "," + Join(Tail850(t))
  {
    hide MonthName, Time, Two, Valid, DayIndex;
    var c, all := Tail850(t), Pieces(Rfc850, t);
    assert all[0] == LONG_DAYS[DayIndex(t)] && all[1..][0] == "," && all[1..][1..] == c;
    assert Join(all[1..]) == "," + Join(c);
    assert LONG_DAYS[DayIndex(t)] + ("," + Join(c)) == LONG_DAYS[DayIndex(t)] + "," + Join(c);
  }

  lemma Rfc850Offsets(t: Moment)
    requires IsMoment(t)
    ensures var c := Tail850(t);
            && |c| == 9 && Offset(c, 0) == 0 && Offset(c, 1) == 1 && Offset(c, 2) == 3 && Offset(c, 3) == 4
            && Offset(c, 4) == 7 && Offset(c, 5) == 8 && Offset(c, 6) == 10 && Offset(c, 7) == 11
            && Offset(c, 8) == 19 && Offset(c, 9) == 23
            && c[0] == " " && c[1] == Two(t.date.day) && c[2] == "-" && c[3] == MonthName(t) && c[4] == "-"
            && c[5] == Two(t.date.year % 100) && c[6] == " " && c[7] == Time(t) && c[8] == " GMT"
            && |c[0]| == 1 && |c[1]| == 2 && |c[2]| == 1 && |c[3]| == 3 && |c[4]| == 1
            && |c[5]| == 2 && |c[6]| == 1 && |c[7]| == 8 && |c[8]| == 4
            && Printed(Rfc850, t) == LONG_DAYS[DayIndex(t)] + "," + Join(c)
  {
    hide MonthName, Time, Two, Valid, DayIndex, Join, Printed;
    var c := Tail850(t);
    Rfc850Printed(t);
    assert Offset(c, 1) == 1 && Offset(c, 2) == 3;
    assert Offset(c, 3) == 4 && Offset(c, 4) == 7;
    assert Offset(c, 5) == 8 && Offset(c, 6) == 10;
    assert Offset(c, 7) == 11 && Offset(c, 8) == 19;
    assert Offset(c, 9) == 23;
  }

  lemma Rfc850Pieces(t: Moment)
    requires IsMoment(t)
    ensures var r := Join(Tail850(t));
            && |r| == 23 && Mid(r, 0, 1) == " " && Mid(r, 1, 2) == Two(t.date.day) && Mid(r, 3, 1) == "-"
            && Mid(r, 4, 3) == MonthName(t) && Mid(r, 7, 1) == "-" && Mid(r, 8, 2) == Two(t.date.year % 100)
            && Mid(r, 10, 1) == " " && Mid(r, 11, 8) == Time(t) && Mid(r, 19, 4) == " GMT"
  {
    var c := Tail850(t);
    Rfc850Offsets(t);
    hide *;
    PieceAt(c, 0);
    PieceAt(c, 1);
    PieceAt(c, 2);
    PieceAt(c, 3);
    PieceAt(c, 4);
    PieceAt(c, 5);
    PieceAt(c, 6);
    PieceAt(c, 7);
    PieceAt(c, 8);
    LengthOf(c);
  }

  lemma LongDayIndex(k: nat)
    requires k < 7
    ensures IndexFrom(LONG_DAYS[k], LONG_DAYS, 0) == k && 6 <= |LONG_DAYS[k]| <= 9
    ensures forall j | 0 <= j < |LONG_DAYS[k]| :: LONG_DAYS[k][j] != ','
  {
    IndexOfName(LONG_DAYS, k, 0);
  }

  /** The year a two-digit form stands for at the time of receipt. */
  ghost predicate InWindow(t: Moment, now: nat) {
    var n := YearFromDays(now / 86400);
    n - 50 < t.date.year <= n + 50
  }

  lemma ParsesRfc850(t: Moment, now: nat)
    requires IsMoment(t) && InWindow(t, now)
    ensures ParseMoment(Printed(Rfc850, t), now) == Some(t)
  {
    hide Printed, MonthName, Time, Two, IndexFrom, ParseDigits, MomentOf, DayIndex, Join, Find, YearFromDays,
      ResolveTwoDigitYear, Tail850;
    Rfc850Offsets(t);
    Rfc850Pieces(t);
    var name, r := LONG_DAYS[DayIndex(t)], Join(Tail850(t));
    var v := name + "," + r;
    LongDayIndex(DayIndex(t));
    FindIn(v, ',', |name|, 0);
    assert v[|name| + 1..] == r && v[..|name|] == name;
    assert r[0] == Mid(r, 0, 1)[0] && r[3] == Mid(r, 3, 1)[0] && r[7] == Mid(r, 7, 1)[0] && r[10] == Mid(r, 10, 1)[0];
    assert r[19] == Mid(r, 19, 4)[0] && Mid(r, 20, 3) == Mid(r, 19, 4)[1..];
    var yy := t.date.year % 100;
    ParseTwo(yy);
    ParseTwo(t.date.day);
    TwoDigitYearIsUnique(yy, now, t.date.year);
    assert Rfc850Parts(v, now) == Some(Parts(DayIndex(t), Two(t.date.day), MonthName(t), t.date.year, Time(t)));
    PartsOfMoment(t, Two(t.date.day));
  }

  /** Printed in any of the forms and surrounded by optional whitespace, a moment is parsed back. */
  lemma PrintThenParse(form: Form, t: Moment, now: nat, before: string, after: string)
    requires IsMoment(t) && (form == Rfc850 ==> InWindow(t, now)) && Blank(before) && Blank(after)
    ensures ParseHttpDateSeconds(before + Printed(form, t) + after, now) == Some(Instant(t))
  {
    hide Printed, ParseMoment, Instant, Blank, Trim;
    SolidPrint(form, t);
    TrimPadded(before, Printed(form, t), after);
    match form
    case ImfFixdate => ParsesImf(t, now);
    case Rfc850 => ParsesRfc850(t, now);
    case Asctime(zero) => ParsesAsctime(t, zero, now);
  }

  lemma SolidPrint(form: Form, t: Moment)
    requires IsMoment(t)
    ensures Solid(Printed(form, t))
  {
    hide Printed, Time, DayIndex, Join, MonthName, Tail850;
    var v := Printed(form, t);
    match form
    case ImfFixdate =>
      ImfPieces(t);
      assert v[0] == ShortDay(t)[0] && v[28] == Mid(v, 25, 4)[3];
    case Asctime(zero) =>
      AsctimePieces(t, zero);
      assert v[0] == ShortDay(t)[0] && v[23] == Four(t.date.year)[3];
    case Rfc850 =>
      Rfc850Offsets(t);
      Rfc850Pieces(t);
      LongDayIndex(DayIndex(t));
      var r := Join(Tail850(t));
      assert v[0] == LONG_DAYS[DayIndex(t)][0] && v[|v| - 1] == r[22] == Mid(r, 19, 4)[3];
  }

  // ---- parsing, then printing -----------------------------------------------------------------------

  /** What accepted parts say. */
  lemma AcceptedParts(p: Parts)
    requires |p.time| == 8 && 0 <= p.year <= 9999 && MomentOf(p).Some?
    ensures var t := MomentOf(p).value;
            && IsMoment(t) && t.date.year == p.year && p.weekday == DayIndex(t) && p.month == MonthName(t)
            && p.time == Time(t) && ParseDigits(p.day) == Some(t.date.day) && t.date.day < 100
  {
    hide IndexFrom, ParseDigits, Days, Weekday, Two;
    var time := p.time;
    TwoDigits(Mid(time, 0, 2));
    TwoDigits(Mid(time, 3, 2));
    TwoDigits(Mid(time, 6, 2));
    assert time == Mid(time, 0, 2) + [time[2]] + Mid(time, 3, 2) + [time[5]] + Mid(time, 6, 2);
  }

  lemma ImfIsPrinted(v: string, now: nat)
    requires |v| == 29 && v[3] == ',' && ParseMoment(v, now).Some?
    ensures var t := ParseMoment(v, now).value; IsMoment(t) && v == Printed(ImfFixdate, t)
  {
    hide MomentOf, ParseDigits, ShortDay, MonthName, Time, Two, Four, DayIndex, Printed, Pieces, Join, Offset;
    var p := ImfParts(v).value;
    FourDigits(Mid(v, 12, 4));
    AcceptedParts(p);
    TwoDigits(p.day);
    var t := MomentOf(p).value;
    assert Mid(v, 0, 3) == ShortDay(t) by { ShortDayIs(Mid(v, 0, 3), t); }
    assert Mid(v, 3, 2) == ", " && Mid(v, 7, 1) == " " && Mid(v, 11, 1) == " " && Mid(v, 16, 1) == " ";
    assert Mid(v, 25, 4) == [v[25]] + Mid(v, 26, 3) == " GMT";
    ImfOffsets(t);
    Whole(Pieces(ImfFixdate, t), v);
  }

  lemma ShortDayIs(s: string, t: Moment)
    requires Valid(t.date) && IndexFrom(s, SHORT_DAYS, 0) == DayIndex(t)
    ensures s == ShortDay(t)
  {}

  /** A text that agrees with all pieces of the same total length. */
  lemma Whole(c: seq<string>, v: string)
    requires Offset(c, |c|) == |v| && forall i | 0 <= i < |c| :: Agrees(c, v, i)
    ensures v == Join(c)
  {
    JoinUnique(c, v, |c|);
    assert c[..|c|] == c && v[..|v|] == v;
  }

  lemma AsctimeIsPrinted(v: string, now: nat) returns (zero: bool)
    requires |v| == 24 && v[3] == ' ' && ParseMoment(v, now).Some?
    ensures var t := ParseMoment(v, now).value; IsMoment(t) && v == Printed(Asctime(zero), t)
  {
    hide MomentOf, ParseDigits, ShortDay, MonthName, Time, Four, DayIndex, Printed, Pieces, Join, Offset;
    var p := AsctimeParts(v).value;
    FourDigits(Mid(v, 20, 4));
    AcceptedParts(p);
    var t := MomentOf(p).value;
    zero := v[8] != ' ';
    if zero {
      TwoDigits(p.day);
    } else {
      OneDigit(p.day);
      assert Mid(v, 8, 2) == [v[8]] + Mid(v, 9, 1);
    }
    assert Mid(v, 8, 2) == PaddedDay(t.date.day, zero);
    assert Mid(v, 0, 3) == ShortDay(t) by { ShortDayIs(Mid(v, 0, 3), t); }
    assert Mid(v, 3, 1) == " " && Mid(v, 7, 1) == " " && Mid(v, 10, 1) == " " && Mid(v, 19, 1) == " ";
    AsctimeOffsets(t, zero);
    Whole(Pieces(Asctime(zero), t), v);
  }

  lemma Rfc850IsPrinted(v: string, now: nat)
    requires Rfc850Parts(v, now).Some? && now < 0x1_0000_0000
    requires MomentOf(Rfc850Parts(v, now).value).Some?
    ensures var t := MomentOf(Rfc850Parts(v, now).value).value;
            IsMoment(t) && v == Printed(Rfc850, t) && InWindow(t, now)
  {
    hide MomentOf, ParseDigits, MonthName, Time, Two, DayIndex, Printed, Join, Offset, Tail850, YearFromDays,
      ResolveTwoDigitYear;
    var p := Rfc850Parts(v, now).value;
    var k := Find(v, ',', 0);
    var r := v[k + 1..];
    TwoDigits(Mid(r, 8, 2));
    YearIsPositive(now / 86400);
    TwoDigitYearIsUnique(ParseDigits(Mid(r, 8, 2)).value, now, p.year);
    AcceptedParts(p);
    var t := MomentOf(p).value;
    TwoDigits(p.day);
    TwoDigitYearIsUnique(ParseDigits(Mid(r, 8, 2)).value, now, t.date.year);
    assert Mid(r, 0, 1) == " " && Mid(r, 3, 1) == "-" && Mid(r, 7, 1) == "-" && Mid(r, 10, 1) == " ";
    assert Mid(r, 19, 4) == [r[19]] + Mid(r, 20, 3) == " GMT";
    Rfc850Offsets(t);
    Whole(Tail850(t), r);
    assert v == v[..k] + "," + r;
  }

  /** Only printed moments are accepted, and for two-digit years only those of the window. */
  lemma ParseThenPrint(value: string, now: nat) returns (form: Form, t: Moment)
    requires ParseHttpDateSeconds(value, now).Some? && now < 0x1_0000_0000
    ensures IsMoment(t) && Trim(value) == Printed(form, t) && ParseHttpDateSeconds(value, now) == Some(Instant(t))
    ensures form == Rfc850 ==> InWindow(t, now)
  {
    hide Printed, MomentOf, Instant, YearFromDays, Trim, ImfParts, AsctimeParts, Rfc850Parts, InWindow;
    var v := Trim(value);
    t := ParseMoment(v, now).value;
    if |v| == 29 && v[3] == ',' {
      form := ImfFixdate;
      ImfIsPrinted(v, now);
    } else if |v| == 24 && v[3] == ' ' {
      var zero := AsctimeIsPrinted(v, now);
      form := Asctime(zero);
    } else {
      form := Rfc850;
      Rfc850IsPrinted(v, now);
    }
  }
}
