/** Times of day in UTC: the RFC 3339 texts of session expiries and the compact texts in snapshot
    file names.  Seconds and nanoseconds both count from 0000-01-01T00:00:00Z. */
module Timestamps {
  import opened TextOrder
  import opened Wrappers
  import opened Calendar

  predicate IsSecond(t: int) {
    0 <= t && t / SECONDS_PER_DAY <= DayNumber(NEVER_EXPIRES)
  }

  function SecondOf(instant: int): int {
    instant / NANOS_PER_SECOND
  }

  function DateAt(t: int): Date
    requires IsSecond(t)
  {
    DateOfDay(t / SECONDS_PER_DAY)
  }

  function Hour(t: int): nat { t % SECONDS_PER_DAY / 3600 }
  function Minute(t: int): nat { t % SECONDS_PER_DAY % 3600 / 60 }
  function Second(t: int): nat { t % SECONDS_PER_DAY % 3600 % 60 }

  /** Layout 2006-01-02T15:04:05Z. */
  function Rfc3339(t: int): (s: string)
    requires IsSecond(t)
    ensures |s| == 20
  {
    Format(DateAt(t))
    + ("T" + (Pad(Hour(t), 2) + (":" + (Pad(Minute(t), 2) + (":" + (Pad(Second(t), 2) + "Z"))))))
  }

  /** Layout 20060102-150405. */
  function FileStamp(t: int): (s: string)
    requires IsSecond(t)
    ensures |s| == 15
  {
    var d := DateAt(t);
    Pad(d.year, 4) + (Pad(d.month, 2) + (Pad(d.day, 2)
    + ("-" + (Pad(Hour(t), 2) + (Pad(Minute(t), 2) + Pad(Second(t), 2))))))
  }

  lemma CutConcatenation(date: string, h: string, m: string, x: string)
    requires |date| == 10 && |h| == |m| == |x| == 2
    ensures var s := date + ("T" + (h + (":" + (m + (":" + (x + "Z"))))));
            && s[..10] == date && s[10] == 'T' && s[11..13] == h && s[13] == ':'
            && s[14..16] == m && s[16] == ':' && s[17..19] == x && s[19] == 'Z'
  {
  }

  lemma CutStamp(y: string, n: string, d: string, h: string, m: string, x: string)
    requires |y| == 4 && |n| == |d| == |h| == |m| == |x| == 2
    ensures y + (n + (d + ("-" + (h + (m + x))))) == y + n + d + "-" + h + m + x
  {
  }

  lemma CutDate(d: Date)
    ensures Format(d)[..4] == Pad(d.year, 4) && Format(d)[5..7] == Pad(d.month, 2) && Format(d)[8..] == Pad(d.day, 2)
  {
  }

  lemma ClockRemainders(t: int)
    ensures Hour(t) == t % 86_400 / 3_600 && Minute(t) == t % 3_600 / 60 && Second(t) == t % 60
  {
    var (q, r) := (t / 86_400, t % 86_400);
    assert t == 3_600 * (24 * q + r / 3_600) + r % 3_600;
    assert t == 60 * (1440 * q + 60 * (r / 3_600) + r % 3_600 / 60) + r % 3_600 % 60;
  }

  lemma ClockFields(t: int)
    ensures Hour(t) < 24 && Minute(t) < 60 && Second(t) < 60
    ensures t == SECONDS_PER_DAY * (t / SECONDS_PER_DAY) + 3600 * Hour(t) + 60 * Minute(t) + Second(t)
    ensures Hour(t) < Pow10(2) && Minute(t) < Pow10(2) && Second(t) < Pow10(2)
  {
    assert Pow10(2) == 100;
  }

  lemma ClockDigits(t: int)
    ensures Pad(Hour(t), 2)[0] as int == '0' as int + t % 86_400 / 3_600 / 10
    ensures Pad(Hour(t), 2)[1] as int == '0' as int + t % 86_400 / 3_600 % 10
    ensures Pad(Minute(t), 2)[0] as int == '0' as int + t % 3_600 / 60 / 10
    ensures Pad(Minute(t), 2)[1] as int == '0' as int + t % 3_600 / 60 % 10
    ensures Pad(Second(t), 2)[0] as int == '0' as int + t % 60 / 10
    ensures Pad(Second(t), 2)[1] as int == '0' as int + t % 60 % 10
  {
    ClockRemainders(t);
    ClockFields(t);
    TwoDigits(Hour(t));
    TwoDigits(Minute(t));
    TwoDigits(Second(t));
  }

  /** The date of the second's day, then hours, minutes and seconds in two digits each. */
  lemma Rfc3339InDigits(t: int)
    requires IsSecond(t)
    ensures var (s, zero) := (Rfc3339(t), '0' as int);
            && DayNumber(DateAt(t)) == t / 86_400 && s[..10] == Format(DateAt(t)) && s[10] == 'T'
            && s[11] as int == zero + t % 86_400 / 3_600 / 10 && s[12] as int == zero + t % 86_400 / 3_600 % 10
            && s[13] == ':' && s[14] as int == zero + t % 3_600 / 60 / 10 && s[15] as int == zero + t % 3_600 / 60 % 10
            && s[16] == ':' && s[17] as int == zero + t % 60 / 10 && s[18] as int == zero + t % 60 % 10 && s[19] == 'Z'
  {
    var (h, m, x) := (Pad(Hour(t), 2), Pad(Minute(t), 2), Pad(Second(t), 2));
    var s := Rfc3339(t);
    CutConcatenation(Format(DateAt(t)), h, m, x);
    ClockDigits(t);
    assert s[11..13] == h && s[14..16] == m && s[17..19] == x;
    assert s[11] == h[0] && s[12] == h[1] && s[14] == m[0] && s[15] == m[1] && s[17] == x[0] && s[18] == x[1];
  }

  /** The compact stamp is the same text without 'T', colons and 'Z', and with its only hyphen
      between date and time. */
  lemma FileStampIsCompact(t: int)
    requires IsSecond(t)
    ensures var s := Rfc3339(t);
            FileStamp(t) == s[..4] + s[5..7] + s[8..10] + "-" + s[11..13] + s[14..16] + s[17..19]
  {
    var (d, h, m, x) := (DateAt(t), Pad(Hour(t), 2), Pad(Minute(t), 2), Pad(Second(t), 2));
    var s := Rfc3339(t);
    CutConcatenation(Format(d), h, m, x);
    CutDate(d);
    assert s[..4] == s[..10][..4] && s[5..7] == s[..10][5..7] && s[8..10] == s[..10][8..];
    CutStamp(Pad(d.year, 4), Pad(d.month, 2), Pad(d.day, 2), h, m, x);
  }

  predicate Earlier(s: int, t: int) {
    Hour(s) < Hour(t) || (Hour(s) == Hour(t)
    && (Minute(s) < Minute(t) || (Minute(s) == Minute(t) && Second(s) < Second(t))))
  }

  /** Later seconds fall on a later date, or on the same date at a later time of day. */
  lemma DateThenClock(s: int, t: int)
    requires IsSecond(s) && IsSecond(t)
    ensures s < t <==> Before(DateAt(s), DateAt(t)) || (DateAt(s) == DateAt(t) && Earlier(s, t))
    ensures DateAt(s) == DateAt(t) <==> s / SECONDS_PER_DAY == t / SECONDS_PER_DAY
  {
    ClockFields(s);
    ClockFields(t);
    DayNumberOrder(DateAt(s), DateAt(t));
  }

  /** RFC 3339 texts in UTC compare as their seconds do. */
  lemma Rfc3339Order(s: int, t: int)
    requires IsSecond(s) && IsSecond(t)
    ensures Less(Rfc3339(s), Rfc3339(t)) <==> s < t
  {
    ClockFields(s);
    ClockFields(t);
    var (zs, zt) := (Pad(Second(s), 2) + "Z", Pad(Second(t), 2) + "Z");
    var (ms, mt) := (":" + zs, ":" + zt);
    var (hs, ht) := (":" + (Pad(Minute(s), 2) + ms), ":" + (Pad(Minute(t), 2) + mt));
    LessByParts(Format(DateAt(s)), Format(DateAt(t)),
                "T" + (Pad(Hour(s), 2) + hs), "T" + (Pad(Hour(t), 2) + ht));
    SeparatedFieldFirst("T", Hour(s), Hour(t), 2, hs, ht);
    SeparatedFieldFirst(":", Minute(s), Minute(t), 2, ms, mt);
    SeparatedFieldFirst(":", Second(s), Second(t), 2, "Z", "Z");
    LessIsIrreflexive("Z");
    TextOrderIsCalendarOrder(DateAt(s), DateAt(t));
    FormatIsInjective(DateAt(s), DateAt(t));
    DateThenClock(s, t);
  }

  lemma FileStampLess(s: int, t: int)
    requires IsSecond(s) && IsSecond(t)
    ensures Less(FileStamp(s), FileStamp(t)) <==> s < t
  {
    ClockFields(s);
    ClockFields(t);
    var (d, e) := (DateAt(s), DateAt(t));
    FieldsFit(d);
    FieldsFit(e);
    var (ms, mt) := (Pad(Minute(s), 2) + Pad(Second(s), 2), Pad(Minute(t), 2) + Pad(Second(t), 2));
    var (cs, ct) := ("-" + (Pad(Hour(s), 2) + ms), "-" + (Pad(Hour(t), 2) + mt));
    FieldFirst(d.year, e.year, 4, Pad(d.month, 2) + (Pad(d.day, 2) + cs), Pad(e.month, 2) + (Pad(e.day, 2) + ct));
    FieldFirst(d.month, e.month, 2, Pad(d.day, 2) + cs, Pad(e.day, 2) + ct);
    FieldFirst(d.day, e.day, 2, cs, ct);
    SeparatedFieldFirst("-", Hour(s), Hour(t), 2, ms, mt);
    FieldFirst(Minute(s), Minute(t), 2, Pad(Second(s), 2), Pad(Second(t), 2));
    PadOrder(Second(s), Second(t), 2);
    DateThenClock(s, t);
  }

  /** Snapshot stamps compare as their seconds do, and different seconds have different stamps. */
  lemma FileStampOrder(s: int, t: int)
    requires IsSecond(s) && IsSecond(t)
    ensures Less(FileStamp(s), FileStamp(t)) <==> s < t
    ensures FileStamp(s) == FileStamp(t) <==> s == t
  {
    FileStampLess(s, t);
    FileStampLess(t, s);
    LessIsIrreflexive(FileStamp(s));
  }

  // ----- Reading the expiry text back -----

  function TimeAt(d: Date, h: nat, m: nat, x: nat): int {
    SECONDS_PER_DAY * DayNumber(d) + 3600 * h + 60 * m + x
  }

  /** Of the texts that Go's RFC 3339 layout reads, the UTC form, which is the one that is written. */
  function ParseRfc3339(s: string): (t: Option<int>) {
    if |s| != 20 || s[10] != 'T' || s[13] != ':' || s[16] != ':' || s[19] != 'Z'
       || !AllDigits(s[11..13]) || !AllDigits(s[14..16]) || !AllDigits(s[17..19]) then None
    else
      var (d, h, m, x) := (Parse(s[..10]), Number(s[11..13]), Number(s[14..16]), Number(s[17..19]));
      if d.None? || h >= 24 || m >= 60 || x >= 60 then None else Some(TimeAt(d.value, h, m, x))
  }

  ghost predicate Prints(s: string, d: Date, h: nat, m: nat, x: nat) {
    s == Format(d) + ("T" + (Pad(h, 2) + (":" + (Pad(m, 2) + (":" + (Pad(x, 2) + "Z"))))))
  }

  /** The fields that a parsed text was cut into. */
  ghost predicate CutInto(s: string, d: Date, h: nat, m: nat, x: nat) {
    && |s| == 20 && s[10] == 'T' && s[13] == ':' && s[16] == ':' && s[19] == 'Z'
    && AllDigits(s[11..13]) && AllDigits(s[14..16]) && AllDigits(s[17..19])
    && Parse(s[..10]) == Some(d) && Number(s[11..13]) == h && Number(s[14..16]) == m && Number(s[17..19]) == x
  }

  lemma CutOfPrinted(s: string, d: Date, h: nat, m: nat, x: nat)
    requires h < 24 && m < 60 && x < 60 && Prints(s, d, h, m, x)
    ensures CutInto(s, d, h, m, x)
  {
    CutConcatenation(Format(d), Pad(h, 2), Pad(m, 2), Pad(x, 2));
    ParseOfFormat(d);
    assert Pow10(2) == 100;
    NumberOfPad(h, 2);
    NumberOfPad(m, 2);
    NumberOfPad(x, 2);
  }

  lemma ConcatenationOfCut(s: string)
    requires |s| == 20 && s[10] == 'T' && s[13] == ':' && s[16] == ':' && s[19] == 'Z'
    ensures s == s[..10] + ("T" + (s[11..13] + (":" + (s[14..16] + (":" + (s[17..19] + "Z"))))))
  {
  }

  lemma PrintedOfCut(s: string, d: Date, h: nat, m: nat, x: nat)
    requires CutInto(s, d, h, m, x)
    ensures Prints(s, d, h, m, x)
  {
    FormatOfParsed(s[..10]);
    PadOfNumber(s[11..13]);
    PadOfNumber(s[14..16]);
    PadOfNumber(s[17..19]);
    ConcatenationOfCut(s);
  }

  lemma ParseOfCut(s: string, d: Date, h: nat, m: nat, x: nat)
    requires h < 24 && m < 60 && x < 60 && CutInto(s, d, h, m, x)
    ensures ParseRfc3339(s) == Some(TimeAt(d, h, m, x))
  {
  }

  lemma CutOfParsed(s: string) returns (d: Date, h: nat, m: nat, x: nat)
    requires ParseRfc3339(s).Some?
    ensures h < 24 && m < 60 && x < 60 && CutInto(s, d, h, m, x)
  {
    d, h, m, x := Parse(s[..10]).value, Number(s[11..13]), Number(s[14..16]), Number(s[17..19]);
  }

  lemma FieldsOfTime(d: Date, h: nat, m: nat, x: nat)
    requires h < 24 && m < 60 && x < 60
    ensures var t := TimeAt(d, h, m, x);
            IsSecond(t) && DateAt(t) == d && Hour(t) == h && Minute(t) == m && Second(t) == x
  {
    var t := TimeAt(d, h, m, x);
    assert t / SECONDS_PER_DAY == DayNumber(d) && t % SECONDS_PER_DAY == 3600 * h + 60 * m + x;
    DayNumberOrder(NEVER_EXPIRES, d);
    DayNumberOrder(DateAt(t), d);
  }

  lemma TimeOfFields(t: int)
    requires IsSecond(t)
    ensures Hour(t) < 24 && Minute(t) < 60 && Second(t) < 60
    ensures TimeAt(DateAt(t), Hour(t), Minute(t), Second(t)) == t
  {
    ClockFields(t);
  }

  /** The stored expiry is read back exactly, to the second. */
  lemma ParseOfRfc3339(t: int)
    requires IsSecond(t)
    ensures ParseRfc3339(Rfc3339(t)) == Some(t)
  {
    var (s, d, h, m, x) := (Rfc3339(t), DateAt(t), Hour(t), Minute(t), Second(t));
    TimeOfFields(t);
    CutOfPrinted(s, d, h, m, x);
    ParseOfCut(s, d, h, m, x);
  }

  lemma Rfc3339OfParsed(s: string)
    requires ParseRfc3339(s).Some?
    ensures IsSecond(ParseRfc3339(s).value) && Rfc3339(ParseRfc3339(s).value) == s
  {
    var d, h, m, x := CutOfParsed(s);
    ParseOfCut(s, d, h, m, x);
    PrintedOfCut(s, d, h, m, x);
    FieldsOfTime(d, h, m, x);
  }

  /** Printing then parsing gives the second back, and only the printed text parses to it. */
  lemma ParseInvertsRfc3339(s: string, t: int)
    ensures ParseRfc3339(s) == Some(t) <==> IsSecond(t) && s == Rfc3339(t)
  {
    if IsSecond(t) {
      ParseOfRfc3339(t);
    }
    if ParseRfc3339(s) == Some(t) {
      Rfc3339OfParsed(s);
    }
  }
}
