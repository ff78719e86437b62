/** Dates in full: the three examples of section 5.6.7 of RFC 9110, every month and every day of the week. */
module HttpDateExamples {
  import opened Options
  import opened HttpText
  import opened Chunks
  import opened CivilDate
  import opened HttpDate

  const NOV_6 := Moment(Date(1994, 11, 6), 8, 49, 37)

  lemma ExampleIs()
    ensures IsMoment(NOV_6) && Days(NOV_6.date) == 9075 && DayIndex(NOV_6) == 0 && Instant(NOV_6) == 784111777
  {
    assert Rem(9075, 7) == 3;
  }

  lemma ExamplePieces()
    ensures IsMoment(NOV_6) && Time(NOV_6) == "08:49:37" && Two(6) == "06" && Two(94) == "94" && Four(1994) == "1994"
    ensures ShortDay(NOV_6) == "Sun" && MonthName(NOV_6) == "Nov" && PaddedDay(6, false) == " 6"
  {
    ExampleIs();
  }

  /** The three examples of the standard are one moment. */
  lemma RfcExamples(now: nat)
    requires InWindow(NOV_6, now)
    ensures ParseHttpDateSeconds("Sun, 06 Nov 1994 08:49:37 GMT", now) == Some(784111777)
    ensures ParseHttpDateSeconds("Sunday, 06-Nov-94 08:49:37 GMT", now) == Some(784111777)
    ensures ParseHttpDateSeconds("Sun Nov  6 08:49:37 1994", now) == Some(784111777)
  {
    hide ParseHttpDateSeconds, Printed, InWindow, Instant;
    ExampleIs();
    assert Printed(ImfFixdate, NOV_6) == "Sun, 06 Nov 1994 08:49:37 GMT" by { ImfExample(); }
    assert Printed(Rfc850, NOV_6) == "Sunday, 06-Nov-94 08:49:37 GMT" by { Rfc850Example(); }
    assert Printed(Asctime(false), NOV_6) == "Sun Nov  6 08:49:37 1994" by { AsctimeExample(); }
    Read(ImfFixdate, NOV_6, now);
    Read(Rfc850, NOV_6, now);
    Read(Asctime(false), NOV_6, now);
  }

  lemma Read(form: Form, t: Moment, now: nat)
    requires IsMoment(t) && (form == Rfc850 ==> InWindow(t, now))
    ensures ParseHttpDateSeconds(Printed(form, t), now) == Some(Instant(t))
  {
    hide ParseHttpDateSeconds, Printed, InWindow, Instant;
    PrintThenParse(form, t, now, "", "");
    assert "" + Printed(form, t) + "" == Printed(form, t);
  }

  lemma ImfExample()
    ensures IsMoment(NOV_6) && Printed(ImfFixdate, NOV_6) == "Sun, 06 Nov 1994 08:49:37 GMT"
  {
    hide Join;
    ExamplePieces();
    var p := Pieces(ImfFixdate, NOV_6);
    assert p == ["Sun", ", ", "06", " ", "Nov", " ", "1994", " ", "08:49:37", " GMT"];
    TenPieces(p);
  }

  lemma Rfc850Example()
    ensures IsMoment(NOV_6) && Printed(Rfc850, NOV_6) == "Sunday, 06-Nov-94 08:49:37 GMT"
  {
    hide Join;
    ExamplePieces();
    ExampleIs();
    var p := Pieces(Rfc850, NOV_6);
    assert p == ["Sunday", ",", " ", "06", "-", "Nov", "-", "94", " ", "08:49:37", " GMT"];
    assert p[1..] == [",", " ", "06", "-", "Nov", "-", "94", " ", "08:49:37", " GMT"];
    TenPieces(p[1..]);
    FirstPiece(p);
  }

  lemma AsctimeExample()
    ensures IsMoment(NOV_6) && Printed(Asctime(false), NOV_6) == "Sun Nov  6 08:49:37 1994"
  {
    hide Join;
    ExamplePieces();
    var p := Pieces(Asctime(false), NOV_6);
    assert p == ["Sun", " ", "Nov", " ", " 6", " ", "08:49:37", " ", "1994"];
    NinePieces(p);
  }

  lemma FirstPiece(p: seq<string>)
    requires p != []
    ensures Join(p) == p[0] + Join(p[1..])
  {}

  lemma NoPieces()
    ensures Join([]) == ""
  {}

  lemma FivePieces(p: seq<string>)
    requires |p| == 5
    ensures Join(p) == p[0] + p[1] + p[2] + p[3] + p[4]
  {
    hide Join;
    var a, b, c, d := p[1..], p[2..], p[3..], p[4..];
    FirstPiece(p);
    FirstPiece(a);
    FirstPiece(b);
    FirstPiece(c);
    FirstPiece(d);
    NoPieces();
    assert a[1..] == b && b[1..] == c && c[1..] == d && d[1..] == [];
  }

  lemma {:induction false} JoinBoth(a: seq<string>, b: seq<string>)
    ensures Join(a + b) == Join(a) + Join(b)
  {
    if a == [] {
      assert a + b == b;
    } else {
      assert (a + b)[1..] == a[1..] + b;
      JoinBoth(a[1..], b);
    }
  }

  lemma NinePieces(p: seq<string>)
    requires |p| == 9
    ensures Join(p) == p[0] + p[1] + p[2] + p[3] + (p[4] + p[5] + p[6] + p[7] + p[8])
  {
    hide Join;
    var rest := p[4..];
    FirstPiece(p);
    FirstPiece(p[1..]);
    FirstPiece(p[2..]);
    FirstPiece(p[3..]);
    assert p[1..][1..] == p[2..] && p[2..][1..] == p[3..] && p[3..][1..] == rest;
    FivePieces(rest);
  }

  lemma TenPieces(p: seq<string>)
    requires |p| == 10
    ensures Join(p) == (p[0] + p[1] + p[2] + p[3] + p[4]) + (p[5] + p[6] + p[7] + p[8] + p[9])
  {
    hide Join;
    FivePieces(p[..5]);
    FivePieces(p[5..]);
    JoinBoth(p[..5], p[5..]);
    assert p[..5] + p[5..] == p;
  }

  // ---- every month and every day of the week ------------------------------------------------------

  function MonthWord(month: nat): string {
    match month
    case 1 => "Jan" case 2 => "Feb" case 3 => "Mar" case 4 => "Apr" case 5 => "May" case 6 => "Jun"
    case 7 => "Jul" case 8 => "Aug" case 9 => "Sep" case 10 => "Oct" case 11 => "Nov" case _ => "Dec"
  }

  /** The day of the week, counted from the Thursday that was 1970-01-01. */
  function DayWord(days: int): string {
    match days % 7
    case 0 => "Thursday" case 1 => "Friday" case 2 => "Saturday" case 3 => "Sunday" case 4 => "Monday"
    case 5 => "Tuesday" case _ => "Wednesday"
  }

  lemma DaysAreNamed(t: Moment)
    requires Valid(t.date)
    ensures |DayWord(Days(t.date))| >= 3 && ShortDay(t) == DayWord(Days(t.date))[..3]
    ensures LONG_DAYS[DayIndex(t)] == DayWord(Days(t.date))
  {
    hide Days;
    assert Weekday(Days(t.date)) == (Days(t.date) + 4) % 7;
  }

  lemma MonthIsNamed(t: Moment)
    requires Valid(t.date)
    ensures MonthName(t) == MonthWord(t.date.month)
  {}

  /** Every printed date names its month, and its day of the week in full or by three letters. */
  lemma NamesAreWritten(t: Moment)
    requires IsMoment(t)
    ensures var imf, asctime, day := Printed(ImfFixdate, t), Printed(Asctime(false), t), DayWord(Days(t.date));
            && |imf| == 29 && |asctime| == 24 && |day| >= 3
            && Mid(imf, 0, 3) == Mid(asctime, 0, 3) == day[..3]
            && Mid(imf, 8, 3) == Mid(asctime, 4, 3) == MonthWord(t.date.month)
            && day + "," <= Printed(Rfc850, t)
  {
    hide Printed, DayWord, MonthWord, ShortDay, MonthName, DayIndex, Days, Mid, Join, LONG_DAYS;
    DaysAreNamed(t);
    MonthIsNamed(t);
    ImfPieces(t);
    AsctimePieces(t, false);
    Rfc850Printed(t);
  }
}
