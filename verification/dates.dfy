/** `parse_date`: WordPress publication dates of the fixed shape
    `Ddd, DD Mon YYYY HH:MM:SS +ZZZZ` are read with `strptime` and written
    back with `strftime` in the caller's format. */
module Dates {
  import opened Wrappers
  import opened Strings
  import opened Errors

  const WeekdayAbbrs: seq<string> := ["Mon", "Tue", "Wed", "Thu", "Fri", "Sat", "Sun"]
  const MonthAbbrs: seq<string> :=
    ["Jan", "Feb", "Mar", "Apr", "May", "Jun", "Jul", "Aug", "Sep", "Oct", "Nov", "Dec"]

  /** The format of `POST_DATE` and `#+DATE`. */
  const PostDateFormat: string := "[%Y-%m-%d %a %H:%M]"
  /** The format of the optional file-name prefix. */
  const FileDateFormat: string := "%Y-%m-%d"

  /** The fields `strptime` reads; `weekday` counts from Monday = 0 and is
      the parsed one (`strptime` does not recompute it from the date). */
  datatype Timestamp = Timestamp(weekday: nat, day: nat, month: nat, year: nat,
                                 hour: nat, minute: nat, second: nat)

  predicate IsLeap(year: nat) {
    year % 4 == 0 && (year % 100 != 0 || year % 400 == 0)
  }

  function DaysInMonth(month: nat, year: nat): nat
    requires 1 <= month <= 12
  {
    if month == 2 then (if IsLeap(year) then 29 else 28)
    else if month in {4, 6, 9, 11} then 30
    else 31
  }

  /** The ranges `strptime` accepts: the date must exist in the proleptic
      Gregorian calendar (year at least 1), and seconds run up to 61. */
  predicate Valid(t: Timestamp) {
    && t.weekday < 7
    && 1 <= t.month <= 12
    && 1 <= t.year <= 9999
    && 1 <= t.day <= DaysInMonth(t.month, t.year)
    && t.hour < 24 && t.minute < 60 && t.second <= 61
  }

  predicate IsDigit(ch: char) {
    '0' <= ch <= '9'
  }

  predicate AllDigits(s: string) {
    forall k :: 0 <= k < |s| ==> IsDigit(s[k])
  }

  function DigitValue(ch: char): (v: nat)
    requires IsDigit(ch)
    ensures v < 10
  {
    ch as int - '0' as int
  }

  function DigitChar(n: nat): (ch: char)
    requires n < 10
    ensures IsDigit(ch) && DigitValue(ch) == n
  {
    ('0' as int + n) as char
  }

  /** The value of a two-digit field. */
  function Two(s: string): (v: nat)
    requires |s| == 2 && AllDigits(s)
    ensures v < 100
  {
    10 * DigitValue(s[0]) + DigitValue(s[1])
  }

  /** The value of a four-digit field. */
  function Four(s: string): (v: nat)
    requires |s| == 4 && AllDigits(s)
    ensures v < 10000
  {
    100 * Two(s[..2]) + Two(s[2..])
  }

  /** `%02d`. */
  function Pad2(n: nat): (s: string)
    requires n < 100
    ensures |s| == 2 && AllDigits(s)
  {
    [DigitChar(n / 10), DigitChar(n % 10)]
  }

  /** `%04d`. */
  function Pad4(n: nat): (s: string)
    requires n < 10000
    ensures |s| == 4 && AllDigits(s)
  {
    Pad2(n / 100) + Pad2(n % 100)
  }

  /** `%d`: the decimal numeral without leading zeros. */
  function Decimal(n: nat): (s: string)
    ensures |s| > 0 && AllDigits(s)
    decreases n
  {
    if n < 10 then [DigitChar(n)] else Decimal(n / 10) + [DigitChar(n % 10)]
  }

  /** The position of `x` in `names`, if it is there. */
  function IndexOf(names: seq<string>, x: string): (r: Option<nat>)
    ensures r.Some? ==> r.value < |names| && names[r.value] == x
    ensures r.None? ==> x !in names
    decreases |names|
  {
    if |names| == 0 then None
    else if names[0] == x then Some(0)
    else match IndexOf(names[1..], x)
      case None => None
      case Some(i) => Some(i + 1)
  }

  /** The punctuation and digit positions of the fixed-width shape
      `Ddd, DD Mon YYYY HH:MM:SS`. */
  predicate WpShape(s: string) {
    && |s| == 25 && s[3] == ',' && s[4] == ' ' && s[7] == ' ' && s[11] == ' '
    && s[16] == ' ' && s[19] == ':' && s[22] == ':'
    && AllDigits(s[5..7]) && AllDigits(s[12..16]) && AllDigits(s[17..19])
    && AllDigits(s[20..22]) && AllDigits(s[23..25])
  }

  /** The numeric fields of text of that shape, with the weekday and month
      already looked up. */
  function WpTimestamp(s: string, weekday: nat, month: nat): Timestamp
    requires WpShape(s)
  {
    Timestamp(weekday, Two(s[5..7]), month, Four(s[12..16]), Two(s[17..19]), Two(s[20..22]), Two(s[23..25]))
  }

  /** The fields of text of that shape, if the names are known and the
      values in range. */
  function WpFields(s: string): Option<Timestamp>
    requires WpShape(s)
  {
    var w := IndexOf(WeekdayAbbrs, s[..3]);
    var m := IndexOf(MonthAbbrs, s[8..11]);
    if w.None? || m.None? then None
    else
      var t := WpTimestamp(s, w.value, m.value + 1);
      if Valid(t) then Some(t) else None
  }

  /** `strptime(s, '%a, %d %b %Y %H:%M:%S')` on the fixed-width shape
      `Ddd, DD Mon YYYY HH:MM:SS`: `None` stands for the `ValueError`. */
  function ParseWpDate(s: string): Option<Timestamp> {
    if WpShape(s) then WpFields(s) else None
  }

  lemma AbbrsShape()
    ensures forall k :: 0 <= k < |WeekdayAbbrs| ==> |WeekdayAbbrs[k]| == 3
    ensures forall k :: 0 <= k < |MonthAbbrs| ==> |MonthAbbrs[k]| == 3
  {
  }

  lemma SliceOf2(s: string, i: nat, p: string)
    requires i + 2 <= |s| && |p| == 2 && s[i] == p[0] && s[i + 1] == p[1]
    ensures s[i..i + 2] == p
  {
  }

  lemma SliceOf3(s: string, i: nat, p: string)
    requires i + 3 <= |s| && |p| == 3 && s[i] == p[0] && s[i + 1] == p[1] && s[i + 2] == p[2]
    ensures s[i..i + 3] == p
  {
  }

  lemma SliceOf4(s: string, i: nat, p: string)
    requires i + 4 <= |s| && |p| == 4 && s[i] == p[0] && s[i + 1] == p[1] && s[i + 2] == p[2] && s[i + 3] == p[3]
    ensures s[i..i + 4] == p
  {
  }

  /** The export layout `Ddd, DD Mon YYYY HH:MM:SS` filled with the given fields. */
  function Layout(a: string, d: string, b: string, y: string, h: string, m: string, sec: string): (s: string)
    requires |a| == 3 && |d| == 2 && |b| == 3 && |y| == 4 && |h| == 2 && |m| == 2 && |sec| == 2
    ensures |s| == 25
  {
    [a[0], a[1], a[2], ',', ' ', d[0], d[1], ' ', b[0], b[1], b[2], ' ',
     y[0], y[1], y[2], y[3], ' ', h[0], h[1], ':', m[0], m[1], ':', sec[0], sec[1]]
  }

  lemma LayoutPunctuation(a: string, d: string, b: string, y: string, h: string, m: string, sec: string)
    requires |a| == 3 && |d| == 2 && |b| == 3 && |y| == 4 && |h| == 2 && |m| == 2 && |sec| == 2
    ensures var s := Layout(a, d, b, y, h, m, sec);
      && s[3] == ',' && s[4] == ' ' && s[7] == ' ' && s[11] == ' '
      && s[16] == ' ' && s[19] == ':' && s[22] == ':'
  {
  }

  lemma LayoutDay(a: string, d: string, b: string, y: string, h: string, m: string, sec: string)
    requires |a| == 3 && |d| == 2 && |b| == 3 && |y| == 4 && |h| == 2 && |m| == 2 && |sec| == 2
    ensures var s := Layout(a, d, b, y, h, m, sec);
      s[..3] == a && s[5..7] == d && s[8..11] == b
  {
    var s := Layout(a, d, b, y, h, m, sec);
    SliceOf3(s, 0, a);
    assert s[..3] == s[0..3];
    SliceOf2(s, 5, d);
    SliceOf3(s, 8, b);
  }

  lemma LayoutYear(a: string, d: string, b: string, y: string, h: string, m: string, sec: string)
    requires |a| == 3 && |d| == 2 && |b| == 3 && |y| == 4 && |h| == 2 && |m| == 2 && |sec| == 2
    ensures Layout(a, d, b, y, h, m, sec)[12..16] == y
  {
    SliceOf4(Layout(a, d, b, y, h, m, sec), 12, y);
  }

  lemma LayoutTime(a: string, d: string, b: string, y: string, h: string, m: string, sec: string)
    requires |a| == 3 && |d| == 2 && |b| == 3 && |y| == 4 && |h| == 2 && |m| == 2 && |sec| == 2
    ensures var s := Layout(a, d, b, y, h, m, sec);
      s[17..19] == h && s[20..22] == m && s[23..25] == sec
  {
    var s := Layout(a, d, b, y, h, m, sec);
    SliceOf2(s, 17, h);
    SliceOf2(s, 20, m);
    SliceOf2(s, 23, sec);
  }

  /** The date of a timestamp as the WordPress export writes it (without the zone). */
  function WpDate(t: Timestamp): (s: string)
    requires Valid(t)
    ensures |s| == 25
  {
    AbbrsShape();
    Layout(WeekdayAbbrs[t.weekday], Pad2(t.day), MonthAbbrs[t.month - 1], Pad4(t.year),
           Pad2(t.hour), Pad2(t.minute), Pad2(t.second))
  }

  /** Where each field sits in the export text of a timestamp. */
  lemma WpDateFields(t: Timestamp)
    requires Valid(t)
    ensures var s := WpDate(t);
      && s[3] == ',' && s[4] == ' ' && s[7] == ' ' && s[11] == ' '
      && s[16] == ' ' && s[19] == ':' && s[22] == ':'
      && s[..3] == WeekdayAbbrs[t.weekday] && s[8..11] == MonthAbbrs[t.month - 1]
      && s[5..7] == Pad2(t.day) && s[12..16] == Pad4(t.year)
      && s[17..19] == Pad2(t.hour) && s[20..22] == Pad2(t.minute) && s[23..25] == Pad2(t.second)
  {
    AbbrsShape();
    var a, d, b, y := WeekdayAbbrs[t.weekday], Pad2(t.day), MonthAbbrs[t.month - 1], Pad4(t.year);
    var h, m, sec := Pad2(t.hour), Pad2(t.minute), Pad2(t.second);
    LayoutPunctuation(a, d, b, y, h, m, sec);
    LayoutDay(a, d, b, y, h, m, sec);
    LayoutYear(a, d, b, y, h, m, sec);
    LayoutTime(a, d, b, y, h, m, sec);
  }

  /** The text one `strftime` directive produces; `%Y` is the C library's
      unpadded year. */
  function Directive(d: char, t: Timestamp): string
    requires Valid(t)
  {
    match d
    case 'Y' => Decimal(t.year)
    case 'm' => Pad2(t.month)
    case 'd' => Pad2(t.day)
    case 'a' => WeekdayAbbrs[t.weekday]
    case 'b' => MonthAbbrs[t.month - 1]
    case 'H' => Pad2(t.hour)
    case 'M' => Pad2(t.minute)
    case 'S' => Pad2(t.second)
    case '%' => "%"
    case _ => ['%', d]
  }

  /** `strftime(fmt, t)` in the C locale. */
  function Strftime(fmt: string, t: Timestamp): string
    requires Valid(t)
    decreases |fmt|
  {
    if |fmt| == 0 then ""
    else if fmt[0] == '%' && |fmt| >= 2 then Directive(fmt[1], t) + Strftime(fmt[2..], t)
    else [fmt[0]] + Strftime(fmt[1..], t)
  }

  /** The text `parse_date` hands to `strptime`: everything before the first
      `+`, with surrounding whitespace removed. */
  function DateCore(date: string): string {
    Strip(Split(date, '+')[0])
  }

  /** `parse_date(date, fmt)`. */
  function ParseDate(date: Option<string>, fmt: string): (r: Result<Option<string>, Error>)
    ensures date.None? ==> r == Success(None)
    ensures date.Some? && r.Success? ==> r.value.Some?
    ensures date.Some? && r.Failure? ==> r.error == BadDate(date.value)
  {
    match date
    case None => Success(None)
    case Some(d) =>
      match ParseWpDate(DateCore(d))
      case None => Failure(BadDate(d))
      case Some(t) => Success(Some(Strftime(fmt, t)))
  }

  lemma TwoPad2(n: nat)
    requires n < 100
    ensures Two(Pad2(n)) == n
  {
  }

  lemma Pad2Two(s: string)
    requires |s| == 2 && AllDigits(s)
    ensures Pad2(Two(s)) == s
  {
    var a, b := DigitValue(s[0]), DigitValue(s[1]);
    assert (10 * a + b) / 10 == a && (10 * a + b) % 10 == b;
    assert DigitChar(a) == s[0] && DigitChar(b) == s[1];
  }

  lemma FourPad4(n: nat)
    requires n < 10000
    ensures Four(Pad4(n)) == n
  {
    var s := Pad4(n);
    assert s[..2] == Pad2(n / 100) && s[2..] == Pad2(n % 100);
    TwoPad2(n / 100);
    TwoPad2(n % 100);
  }

  lemma Pad4Four(s: string)
    requires |s| == 4 && AllDigits(s)
    ensures Pad4(Four(s)) == s
  {
    var hi, lo := Two(s[..2]), Two(s[2..]);
    assert (100 * hi + lo) / 100 == hi && (100 * hi + lo) % 100 == lo;
    Pad2Two(s[..2]);
    Pad2Two(s[2..]);
    assert s == s[..2] + s[2..];
  }

  lemma IndexOfDistinct(names: seq<string>, i: nat)
    requires i < |names|
    requires forall j, k :: 0 <= j < k < |names| ==> names[j] != names[k]
    ensures IndexOf(names, names[i]) == Some(i)
  {
    var r := IndexOf(names, names[i]);
    assert r.Some?;
  }

  lemma AbbrsDistinct()
    ensures forall j, k :: 0 <= j < k < |WeekdayAbbrs| ==> WeekdayAbbrs[j] != WeekdayAbbrs[k]
    ensures forall j, k :: 0 <= j < k < |MonthAbbrs| ==> MonthAbbrs[j] != MonthAbbrs[k]
  {
  }

  /** Reading back the export shape of a valid timestamp gives the timestamp. */
  lemma ParseWpDateOfWpDate(t: Timestamp)
    requires Valid(t)
    ensures ParseWpDate(WpDate(t)) == Some(t)
  {
    var s := WpDate(t);
    WpDateFields(t);
    AbbrsDistinct();
    IndexOfDistinct(WeekdayAbbrs, t.weekday);
    IndexOfDistinct(MonthAbbrs, t.month - 1);
    TwoPad2(t.day);
    TwoPad2(t.hour);
    TwoPad2(t.minute);
    TwoPad2(t.second);
    FourPad4(t.year);
    var t' := Timestamp(t.weekday, Two(s[5..7]), t.month - 1 + 1, Four(s[12..16]),
                        Two(s[17..19]), Two(s[20..22]), Two(s[23..25]));
    assert t' == t;
  }

  /** The fixed shape is canonical: whatever `ParseWpDate` accepts is the
      export text of what it returns. */
  lemma WpDateOfParseWpDate(s: string, t: Timestamp)
    requires ParseWpDate(s) == Some(t)
    ensures Valid(t) && WpDate(t) == s
  {
    AbbrsShape();
    Pad2Two(s[5..7]);
    Pad2Two(s[17..19]);
    Pad2Two(s[20..22]);
    Pad2Two(s[23..25]);
    Pad4Four(s[12..16]);
    var w := WpDate(t);
    assert forall k :: 0 <= k < 25 ==> w[k] == s[k];
  }

  /** `strip` keeps every character between two that are not whitespace. */
  lemma StripKeeps(s: string, k: nat)
    requires k < |s| && !IsSpace(s[0]) && !IsSpace(s[k])
    ensures |Strip(s)| > k
  {
    var r := Strip(s);
    var i :| OccursAt(s, r, i) && AllSpace(s[..i]) && AllSpace(s[i + |r|..]);
    SpacesAround(s, i, i + |r|);
  }

  /** On text that starts with a non-space, `strip` keeps a prefix. */
  lemma StripPrefix(s: string)
    requires |s| > 0 && !IsSpace(s[0])
    ensures |Strip(s)| <= |s| && Strip(s) == s[..|Strip(s)|]
  {
    var r := Strip(s);
    var i :| OccursAt(s, r, i) && AllSpace(s[..i]) && AllSpace(s[i + |r|..]);
    SpacesAround(s, i, i + |r|);
  }

  /** `strip` stops before trailing whitespace. */
  lemma StripWithin(s: string, n: nat)
    requires 0 < n <= |s| && !IsSpace(s[0])
    requires forall k | n <= k < |s| :: IsSpace(s[k])
    ensures |Strip(s)| <= n
  {
    var r := Strip(s);
    var i :| OccursAt(s, r, i) && AllSpace(s[..i]) && AllSpace(s[i + |r|..]);
    SpacesAround(s, i, i + |r|);
    if |r| > 0 {
      assert r[|r| - 1] == s[i + |r| - 1];
    }
  }

  /** `strip` gives back a word that neither starts nor ends with
      whitespace from behind trailing whitespace. */
  lemma StripWordThenSpace(w: string, tail: string)
    requires |w| > 0 && !IsSpace(w[0]) && !IsSpace(w[|w| - 1])
    requires AllSpace(tail)
    ensures Strip(w + tail) == w
  {
    var s := w + tail;
    assert s[0] == w[0] && s[|w| - 1] == w[|w| - 1];
    assert forall k | |w| <= k < |s| :: IsSpace(s[k]) by {
      forall k | |w| <= k < |s| ensures IsSpace(s[k]) {
        assert s[k] == tail[k - |w|];
      }
    }
    StripKeeps(s, |w| - 1);
    StripWithin(s, |w|);
    StripPrefix(s);
    assert s[..|w|] == w;
  }

  /** The whitespace `strip` removes, stated character by character. */
  lemma SpacesAround(s: string, i: int, j: int)
    requires 0 <= i <= j <= |s|
    requires AllSpace(s[..i]) && AllSpace(s[j..])
    ensures forall k :: 0 <= k < i ==> IsSpace(s[k])
    ensures forall k :: j <= k < |s| ==> IsSpace(s[k])
  {
    assert forall k :: 0 <= k < i ==> s[k] == s[..i][k];
    assert forall k :: j <= k < |s| ==> s[k] == s[j..][k - j];
  }

  lemma WpDateShape(t: Timestamp)
    requires Valid(t)
    ensures |WpDate(t)| == 25
    ensures '+' !in WpDate(t)
    ensures !IsSpace(WpDate(t)[0]) && !IsSpace(WpDate(t)[24])
    ensures WpDate(t)[24] == Pad2(t.second)[1]
  {
    var s := WpDate(t);
    assert s[..3] == WeekdayAbbrs[t.weekday];
    assert forall k :: 0 <= k < |s| ==> s[k] != '+' by {
      forall k | 0 <= k < |s| ensures s[k] != '+' {
        if k < 3 {
          assert s[k] == WeekdayAbbrs[t.weekday][k];
        } else if 8 <= k < 11 {
          assert s[k] == MonthAbbrs[t.month - 1][k - 8];
        }
      }
    }
  }

  /** `parse_date` on an export date with a `+` zone: the zone is dropped
      and the timestamp is written in the requested format. */
  lemma ParseDateOfExport(t: Timestamp, zone: string, fmt: string)
    requires Valid(t)
    ensures ParseDate(Some(WpDate(t) + " +" + zone), fmt) == Success(Some(Strftime(fmt, t)))
  {
    var w := WpDate(t);
    WpDateShape(t);
    assert w + " +" + zone == (w + " ") + ['+'] + zone;
    SplitConcat(w + " ", zone, '+');
    SplitFree(w + " ", '+');
    StripWordThenSpace(w, " ");
    ParseWpDateOfWpDate(t);
  }

  /** `parse_date` succeeds exactly on dates whose text before the first `+`
      is, up to surrounding whitespace, the export text of a valid timestamp,
      and then writes that timestamp in the requested format. */
  lemma ParseDateExactly(d: string, fmt: string)
    ensures ParseDate(Some(d), fmt).Success? <==> exists t :: Valid(t) && WpDate(t) == DateCore(d)
    ensures forall t :: Valid(t) && WpDate(t) == DateCore(d) ==>
              ParseDate(Some(d), fmt) == Success(Some(Strftime(fmt, t)))
  {
    match ParseWpDate(DateCore(d))
    case Some(t) =>
      WpDateOfParseWpDate(DateCore(d), t);
      forall t' | Valid(t') && WpDate(t') == DateCore(d)
        ensures t' == t
      {
        ParseWpDateOfWpDate(t');
      }
    case None =>
      forall t' | Valid(t') && WpDate(t') == DateCore(d)
        ensures false
      {
        ParseWpDateOfWpDate(t');
      }
  }

  /** A negative zone offset is not split off, so `strptime` sees trailing
      text and `parse_date` fails. */
  lemma NegativeOffsetRejected(t: Timestamp, zone: string, fmt: string)
    requires Valid(t) && '+' !in zone
    ensures ParseDate(Some(WpDate(t) + " -" + zone), fmt) == Failure(BadDate(WpDate(t) + " -" + zone))
  {
    var w := WpDate(t);
    WpDateShape(t);
    assert '+' !in w + " -" + zone;
    var s := w + " -" + zone;
    SplitFree(s, '+');
    assert s[0] == w[0] && s[26] == '-';
    StripKeeps(s, 26);
  }

  /** `fmt` ends with a `%` that starts no directive. */
  predicate DanglingPercent(fmt: string)
    decreases |fmt|
  {
    if |fmt| == 0 then false
    else if fmt[0] == '%' then |fmt| == 1 || DanglingPercent(fmt[2..])
    else DanglingPercent(fmt[1..])
  }

  lemma {:induction false} NoDanglingAppend(f1: string, f2: string)
    requires !DanglingPercent(f1) && !DanglingPercent(f2)
    ensures !DanglingPercent(f1 + f2)
    decreases |f1|
  {
    if |f1| == 0 {
      assert f1 + f2 == f2;
    } else if f1[0] == '%' {
      NoDanglingAppend(f1[2..], f2);
      assert (f1 + f2)[2..] == f1[2..] + f2;
    } else {
      NoDanglingAppend(f1[1..], f2);
      assert (f1 + f2)[1..] == f1[1..] + f2;
    }
  }

  /** The length of the piece of `fmt` that `Strftime` consumes first. */
  function Width(fmt: string): (n: nat)
    requires |fmt| > 0
    ensures 0 < n <= |fmt|
  {
    if fmt[0] == '%' && |fmt| >= 2 then 2 else 1
  }

  /** What `Strftime` makes of the first piece of `fmt`. */
  function Head(fmt: string, t: Timestamp): string
    requires Valid(t) && |fmt| > 0
  {
    if fmt[0] == '%' && |fmt| >= 2 then Directive(fmt[1], t) else [fmt[0]]
  }

  lemma StrftimeStep(fmt: string, t: Timestamp)
    requires Valid(t) && |fmt| > 0
    ensures Strftime(fmt, t) == Head(fmt, t) + Strftime(fmt[Width(fmt)..], t)
  {
  }

  /** A format that does not end in a dangling `%` starts with the same piece
      whatever follows it. */
  lemma AppendWidth(f1: string, f2: string)
    requires |f1| > 0 && !DanglingPercent(f1)
    ensures Width(f1 + f2) == Width(f1)
    ensures (f1 + f2)[Width(f1)..] == f1[Width(f1)..] + f2
    ensures !DanglingPercent(f1[Width(f1)..])
  {
    assert (f1 + f2)[0] == f1[0];
  }

  lemma AppendHead(f1: string, f2: string, t: Timestamp)
    requires Valid(t) && |f1| > 0 && !DanglingPercent(f1)
    ensures Head(f1 + f2, t) == Head(f1, t)
  {
    assert (f1 + f2)[0] == f1[0];
    if f1[0] == '%' {
      assert (f1 + f2)[1] == f1[1];
    }
  }

  /** Formatting distributes over formats that split between directives. */
  lemma {:induction false} StrftimeAppend(f1: string, f2: string, t: Timestamp)
    requires Valid(t) && !DanglingPercent(f1)
    ensures Strftime(f1 + f2, t) == Strftime(f1, t) + Strftime(f2, t)
    decreases |f1|
  {
    if |f1| == 0 {
      assert f1 + f2 == f2;
    } else {
      var w := Width(f1);
      AppendWidth(f1, f2);
      AppendHead(f1, f2, t);
      StrftimeAppend(f1[w..], f2, t);
      StrftimeStep(f1 + f2, t);
      StrftimeStep(f1, t);
      Assoc(Head(f1, t), Strftime(f1[w..], t), Strftime(f2, t));
    }
  }

  lemma PostDateFormatPieces()
    ensures PostDateFormat == "[" + FileDateFormat + " %a" + " %H:%M]"
    ensures !DanglingPercent("[") && !DanglingPercent("[" + FileDateFormat)
    ensures !DanglingPercent("[" + FileDateFormat + " %a")
  {
    NoDanglingAppend("[", FileDateFormat);
    NoDanglingAppend("[" + FileDateFormat, " %a");
  }

  lemma Strftime4(a: string, b: string, c: string, d: string, t: Timestamp)
    requires Valid(t) && !DanglingPercent(a) && !DanglingPercent(a + b) && !DanglingPercent(a + b + c)
    ensures Strftime(a + b + c + d, t) == Strftime(a, t) + Strftime(b, t) + Strftime(c, t) + Strftime(d, t)
  {
    StrftimeAppend(a, b, t);
    StrftimeAppend(a + b, c, t);
    StrftimeAppend(a + b + c, d, t);
  }

  lemma PostDateTail(t: Timestamp)
    requires Valid(t)
    ensures Strftime("[", t) == "["
    ensures Strftime(" %a", t) == " " + WeekdayAbbrs[t.weekday]
    ensures Strftime(" %H:%M]", t) == " " + Pad2(t.hour) + ":" + Pad2(t.minute) + "]"
  {
  }

  /** The post date: the file-name date in brackets, then the weekday,
      hours and minutes; the seconds are dropped. */
  lemma PostDateLayout(t: Timestamp)
    requires Valid(t)
    ensures Strftime(PostDateFormat, t) ==
      "[" + Strftime(FileDateFormat, t) + (" " + WeekdayAbbrs[t.weekday])
        + (" " + Pad2(t.hour) + ":" + Pad2(t.minute) + "]")
  {
    PostDateFormatPieces();
    Strftime4("[", FileDateFormat, " %a", " %H:%M]", t);
    PostDateTail(t);
  }

  /** The file-name prefix date: year, two-digit month and day. */
  lemma FileDateLayout(t: Timestamp)
    requires Valid(t)
    ensures Strftime(FileDateFormat, t) == Decimal(t.year) + "-" + Pad2(t.month) + "-" + Pad2(t.day)
  {
    assert Strftime("%d", t) == Pad2(t.day);
    assert Strftime("-%d", t) == "-" + Strftime("%d", t);
    assert Strftime("%m-%d", t) == Pad2(t.month) + Strftime("-%d", t);
    assert Strftime("-%m-%d", t) == "-" + Strftime("%m-%d", t);
    assert Strftime("%Y-%m-%d", t) == Decimal(t.year) + Strftime("-%m-%d", t);
  }

  /** A sample date as WordPress exports it. */
  const SampleDate: string := "Mon, 03 Jan 2011 10:00:00 +0000"

  lemma SampleDateParts()
    ensures SampleDate == WpDate(Timestamp(0, 3, 1, 2011, 10, 0, 0)) + " +" + "0000"
  {
    var t := Timestamp(0, 3, 1, 2011, 10, 0, 0);
    assert WpDate(t) == "Mon, 03 Jan 2011 10:00:00";
  }

  lemma SampleYear()
    ensures Decimal(2011) == "2011"
  {
    assert Decimal(2) == "2";
    assert Decimal(20) == "20";
    assert Decimal(201) == "201";
  }

  lemma SampleFileDate()
    ensures Strftime(FileDateFormat, Timestamp(0, 3, 1, 2011, 10, 0, 0)) == "2011-01-03"
  {
    var t := Timestamp(0, 3, 1, 2011, 10, 0, 0);
    FileDateLayout(t);
    SampleYear();
    assert Pad2(1) == "01" && Pad2(3) == "03";
  }

  lemma ParseDateFileExample()
    ensures ParseDate(Some(SampleDate), FileDateFormat) == Success(Some("2011-01-03"))
  {
    SampleDateParts();
    ParseDateOfExport(Timestamp(0, 3, 1, 2011, 10, 0, 0), "0000", FileDateFormat);
    SampleFileDate();
  }

  /** The sample's timestamp. */
  const SampleTime: Timestamp := Timestamp(0, 3, 1, 2011, 10, 0, 0)

  lemma SampleTimeOfDay(t: Timestamp)
    requires t == SampleTime
    ensures " " + WeekdayAbbrs[t.weekday] == " Mon"
    ensures " " + Pad2(t.hour) + ":" + Pad2(t.minute) + "]" == " 10:00]"
  {
    assert Pad2(10) == "10" && Pad2(0) == "00";
  }

  // Solver aid for `SamplePostDate` below: it states the example's literal join over
  // variables, so that the solver compares short literals only.
  /** The sample post date, assembled from its pieces. */
  lemma SamplePieces(d: string, w: string, tl: string)
    requires d == "2011-01-03" && w == " Mon" && tl == " 10:00]"
    ensures "[" + d + w + tl == "[2011-01-03 Mon 10:00]"
  {
  }

  lemma SamplePostDate(t: Timestamp)
    requires t == SampleTime
    ensures Strftime(PostDateFormat, t) == "[2011-01-03 Mon 10:00]"
  {
    PostDateLayout(t);
    SampleFileDate();
    SampleTimeOfDay(t);
    SamplePieces(Strftime(FileDateFormat, t), " " + WeekdayAbbrs[t.weekday], " " + Pad2(t.hour) + ":" + Pad2(t.minute) + "]");
  }

  lemma ParseDatePostExample()
    ensures ParseDate(Some(SampleDate), PostDateFormat) == Success(Some("[2011-01-03 Mon 10:00]"))
  {
    SampleDateParts();
    ParseDateOfExport(SampleTime, "0000", PostDateFormat);
    SamplePostDate(SampleTime);
  }
}
