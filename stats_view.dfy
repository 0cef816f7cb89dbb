/**
 * The statistics page: whether the stat cards are shown, and the rendering
 * of the total practice time.
 */
module StatisticsView {
  import opened Text
  import opened Storage

  /** The cards appear only once at least one session has been recorded. */
  function ShowStatCards(stats: Statistics): bool
  {
    stats.totalSessions > 0
  }

  /** The page shows cards exactly when some stored record could be read back. */
  lemma ShowStatCardsIffRecords(records: seq<SessionRecord>)
    ensures ShowStatCards(FromRecords(records)) <==> records != []
  {
  }

  /** Whole hours, the minutes left within the hour, and the seconds left within the minute. */
  lemma TimeParts(seconds: nat)
    ensures (seconds / 3600) * 3600 + ((seconds % 3600) / 60) * 60 + seconds % 60 == seconds
    ensures (seconds % 3600) / 60 < 60 && seconds % 60 < 60
    ensures seconds / 3600 == (seconds / 60) / 60
    ensures (seconds % 3600) / 60 == (seconds / 60) % 60
  {
    var q := seconds / 60;
    var r := seconds % 60;
    assert seconds == q * 60 + r;
    var h := q / 60;
    var m := q % 60;
    assert q == h * 60 + m;
    assert seconds == h * 3600 + (m * 60 + r);
    assert 0 <= m * 60 + r < 3600;
    assert seconds / 3600 == h;
    assert seconds % 3600 == m * 60 + r;
    assert (m * 60 + r) / 60 == m;
  }

  /**
   * `format_time`: at least an hour shows hours and minutes, at least a
   * minute shows minutes and seconds, anything shorter only seconds.
   */
  function FormatTime(seconds: nat): (text: string)
    ensures 'h' in text <==> seconds >= 3600
    ensures ' ' in text <==> seconds >= 60
    ensures |text| > 0 && text[|text| - 1] == (if seconds >= 3600 then 'm' else 's')
  {
    var hours := seconds / 3600;
    var minutes := (seconds % 3600) / 60;
    var secs := seconds % 60;
    TimeParts(seconds);
    if hours > 0 then
      var text := NatToString(hours) + "h " + NatToString(minutes) + "m";
      assert text[|NatToString(hours)|] == 'h';
      assert ' ' == text[|NatToString(hours)| + 1];
      text
    else if minutes > 0 then
      var text := NatToString(minutes) + "m " + NatToString(secs) + "s";
      assert ' ' == text[|NatToString(minutes)| + 1];
      assert 'h' !in NatToString(minutes) && 'h' !in NatToString(secs);
      text
    else
      var text := NatToString(secs) + "s";
      assert 'h' !in NatToString(secs) && ' ' !in NatToString(secs);
      text
  }

  /** A count of the unit a letter of the rendering names, in seconds. */
  function InUnit(n: nat, u: char): nat
  {
    if u == 'h' then n * 3600 else if u == 'm' then n * 60 else n
  }

  /** One rendered field, a number and a unit letter, read back as seconds. */
  function FieldSeconds(f: string): nat
  {
    if f != [] && AllDigits(f[..|f| - 1]) then InUnit(ParseDecimal(f[..|f| - 1]), f[|f| - 1]) else 0
  }

  function FieldsSeconds(fs: seq<string>): nat
  {
    if fs == [] then 0 else FieldSeconds(fs[0]) + FieldsSeconds(fs[1..])
  }

  /** A rendered time read back: the sum of its space-separated fields. */
  function ReadTime(text: string): nat
  {
    FieldsSeconds(SplitOn(text, ' '))
  }

  /** A number followed by a unit letter reads back as that many units. */
  lemma FieldReadsBack(n: nat, u: char)
    ensures FieldSeconds(NatToString(n) + [u]) == InUnit(n, u)
  {
    var f := NatToString(n) + [u];
    assert f[..|f| - 1] == NatToString(n);
    NatToStringRoundTrip(n);
  }

  /** A count of hours reads back as that many times 3600 seconds. */
  lemma HoursFieldReadsBack(n: nat)
    ensures FieldSeconds(NatToString(n) + ['h']) == n * 3600
  {
    FieldReadsBack(n, 'h');
  }

  /** A count of minutes reads back as that many times 60 seconds. */
  lemma MinutesFieldReadsBack(n: nat)
    ensures FieldSeconds(NatToString(n) + ['m']) == n * 60
  {
    FieldReadsBack(n, 'm');
  }

  /** A count of seconds reads back as itself. */
  lemma SecondsFieldReadsBack(n: nat)
    ensures FieldSeconds(NatToString(n) + ['s']) == n
  {
    FieldReadsBack(n, 's');
  }

  /** A rendered number has no space in it. */
  lemma NoSpaceInNumber(n: nat)
    ensures ' ' !in NatToString(n)
  {
  }

  /** A field without a space reads back as its own value. */
  lemma OneFieldReadBack(x: string)
    requires ' ' !in x
    ensures ReadTime(x) == FieldSeconds(x)
  {
    assert SplitOn(x, ' ') == [x];
    assert [x][1..] == [];
    assert FieldsSeconds([x]) == FieldSeconds(x) + FieldsSeconds([]);
  }

  /** Two fields separated by a space read back as the sum of their values. */
  lemma TwoFieldsReadBack(x: string, y: string)
    requires ' ' !in x && ' ' !in y
    ensures ReadTime(x + [' '] + y) == FieldSeconds(x) + FieldSeconds(y)
  {
    SplitOnPieceThenSeparator(x, y, ' ');
    assert SplitOn(x + [' '] + y, ' ') == [x, y];
    assert [x, y][1..] == [y];
    assert [y][1..] == [];
    assert FieldsSeconds([y]) == FieldSeconds(y) + FieldsSeconds([]);
    assert FieldsSeconds([x, y]) == FieldSeconds(x) + FieldsSeconds([y]);
  }

  /** From an hour on, the rendering is an hours field, a space and a minutes field. */
  lemma HoursRendering(seconds: nat)
    requires seconds >= 3600
    ensures FormatTime(seconds) == (NatToString(seconds / 3600) + ['h']) + [' '] + (NatToString((seconds % 3600) / 60) + ['m'])
  {
  }

  /** From an hour on, the rendering reads back as the time to the minute. */
  lemma HoursReadBack(seconds: nat)
    requires seconds >= 3600
    ensures ReadTime(FormatTime(seconds)) == seconds - seconds % 60
  {
    var h, m := seconds / 3600, (seconds % 3600) / 60;
    HoursRendering(seconds);
    NoSpaceInNumber(h);
    NoSpaceInNumber(m);
    TwoFieldsReadBack(NatToString(h) + ['h'], NatToString(m) + ['m']);
    HoursFieldReadsBack(h);
    MinutesFieldReadsBack(m);
    TimeParts(seconds);
  }

  /** Between a minute and an hour, the rendering is a minutes field, a space and a seconds field. */
  lemma MinutesRendering(seconds: nat)
    requires 60 <= seconds < 3600
    ensures FormatTime(seconds) == (NatToString(seconds / 60) + ['m']) + [' '] + (NatToString(seconds % 60) + ['s'])
  {
    assert seconds / 3600 == 0 && seconds % 3600 == seconds;
  }

  /** Between a minute and an hour, the rendering reads back as the time. */
  lemma MinutesReadBack(seconds: nat)
    requires 60 <= seconds < 3600
    ensures ReadTime(FormatTime(seconds)) == seconds
  {
    var m, r := seconds / 60, seconds % 60;
    MinutesRendering(seconds);
    NoSpaceInNumber(m);
    NoSpaceInNumber(r);
    TwoFieldsReadBack(NatToString(m) + ['m'], NatToString(r) + ['s']);
    MinutesFieldReadsBack(m);
    SecondsFieldReadsBack(r);
  }

  /** Under a minute, the rendering shows only the seconds. */
  lemma SecondsRendering(seconds: nat)
    requires seconds < 60
    ensures FormatTime(seconds) == NatToString(seconds) + ['s']
  {
    assert seconds / 3600 == 0 && (seconds % 3600) / 60 == 0 && seconds % 60 == seconds;
  }

  /** Under a minute, the rendering reads back as the time. */
  lemma SecondsReadBack(seconds: nat)
    requires seconds < 60
    ensures ReadTime(FormatTime(seconds)) == seconds
  {
    SecondsRendering(seconds);
    NoSpaceInNumber(seconds);
    OneFieldReadBack(NatToString(seconds) + ['s']);
    SecondsFieldReadsBack(seconds);
  }

  /**
   * Reading the rendering back gives the time: exactly below an hour, and
   * to the minute from an hour on, where the seconds are not shown.
   */
  lemma FormatTimeReadBack(seconds: nat)
    ensures ReadTime(FormatTime(seconds)) == if seconds >= 3600 then seconds - seconds % 60 else seconds
  {
    if seconds >= 3600 {
      HoursReadBack(seconds);
    } else if seconds >= 60 {
      MinutesReadBack(seconds);
    } else {
      SecondsReadBack(seconds);
    }
  }

  lemma FormatTimeZero()
    ensures FormatTime(0) == "0s"
  {
  }

  lemma FormatTimeSeconds()
    ensures FormatTime(45) == "45s"
  {
    assert NatToString(45) == "45" by { assert NatToString(4) == "4"; }
  }

  lemma FormatTimeMinutes()
    ensures FormatTime(125) == "2m 5s"
  {
    assert 125 / 3600 == 0 && (125 % 3600) / 60 == 2 && 125 % 60 == 5;
    assert NatToString(2) == "2" && NatToString(5) == "5";
  }

  lemma FormatTimeHours()
    ensures FormatTime(3725) == "1h 2m"
  {
    assert 3725 / 3600 == 1 && (3725 % 3600) / 60 == 2;
    assert NatToString(1) == "1" && NatToString(2) == "2";
  }

  /** A digit string, an infix that does not start with a digit, a digit string and a suffix read back both digit strings. */
  lemma TwoFieldsDetermine(p: string, q: string, r: string, w: string, infix: string, suffix: string)
    requires AllDigits(p) && AllDigits(r)
    requires infix != [] && !IsDigit(infix[0])
    requires p + infix + q + suffix == r + infix + w + suffix
    ensures p == r && q == w
  {
    var x, y := infix + q + suffix, infix + w + suffix;
    assert p + infix + q + suffix == p + x;
    assert r + infix + w + suffix == r + y;
    DigitsSplitUniquely(p, x, r, y);
    assert q == x[|infix|..|x| - |suffix|];
    assert w == y[|infix|..|y| - |suffix|];
  }

  /** Past an hour, equal renderings agree to the minute. */
  lemma SameHoursRendering(s: nat, t: nat)
    requires s >= 3600 && t >= 3600 && FormatTime(s) == FormatTime(t)
    ensures s / 60 == t / 60
  {
    TimeParts(s);
    TimeParts(t);
    TwoFieldsDetermine(NatToString(s / 3600), NatToString((s % 3600) / 60),
      NatToString(t / 3600), NatToString((t % 3600) / 60), "h ", "m");
    NatToStringInjective(s / 3600, t / 3600);
    NatToStringInjective((s % 3600) / 60, (t % 3600) / 60);
  }

  /** Between a minute and an hour, equal renderings mean equal totals. */
  lemma SameMinutesRendering(s: nat, t: nat)
    requires 60 <= s < 3600 && 60 <= t < 3600 && FormatTime(s) == FormatTime(t)
    ensures s == t
  {
    TimeParts(s);
    TimeParts(t);
    TwoFieldsDetermine(NatToString((s % 3600) / 60), NatToString(s % 60),
      NatToString((t % 3600) / 60), NatToString(t % 60), "m ", "s");
    NatToStringInjective((s % 3600) / 60, (t % 3600) / 60);
    NatToStringInjective(s % 60, t % 60);
  }

  /** Under a minute, equal renderings mean equal totals. */
  lemma SameSecondsRendering(s: nat, t: nat)
    requires s < 60 && t < 60 && FormatTime(s) == FormatTime(t)
    ensures s == t
  {
    var x, y := NatToString(s % 60), NatToString(t % 60);
    assert x == (x + "s")[..|x|] && y == (y + "s")[..|y|];
    NatToStringInjective(s % 60, t % 60);
  }

  /** Past an hour, totals that agree to the minute render the same. */
  lemma SameMinuteSameRendering(s: nat, t: nat)
    requires s >= 3600 && t >= 3600 && s / 60 == t / 60
    ensures FormatTime(s) == FormatTime(t)
  {
    TimeParts(s);
    TimeParts(t);
  }

  /**
   * Two totals render the same exactly when both are under an hour and equal,
   * or both are at least an hour and agree to the minute: past an hour the
   * seconds are dropped, below one nothing is.
   */
  lemma FormatTimeSameIff(s: nat, t: nat)
    ensures FormatTime(s) == FormatTime(t) <==>
      if s >= 3600 then t >= 3600 && s / 60 == t / 60 else s == t
  {
    if FormatTime(s) == FormatTime(t) {
      if s >= 3600 {
        SameHoursRendering(s, t);
      } else if s >= 60 {
        SameMinutesRendering(s, t);
      } else {
        SameSecondsRendering(s, t);
      }
    } else if s >= 3600 && t >= 3600 && s / 60 == t / 60 {
      SameMinuteSameRendering(s, t);
    }
  }
}
