/** Time.Format(time.RFC3339) for UTC instants, and a reader of that text (section 5.6 of RFC 3339). */
module Rfc3339 {
  import opened GoStrings
  import opened GoInts
  import opened Time

  /** u in decimal, zero-padded to at least width digits. */
  function Digits(u: nat, width: nat): GoString
    decreases u + width
  {
    if u == 0 && width == 0 then []
    else Digits(u / 10, if width == 0 then 0 else width - 1) + [48 + u % 10]
  }

  /** A field: a minus sign for negative numbers, more digits than asked for if it needs them. */
  function AppendInt(x: int, width: nat): GoString {
    if x < 0 then [DASH] + Digits(-x, width) else Digits(x, width)
  }

  function Format(t: Time): GoString {
    var c := CivilOf(t.sec);
    AppendInt(c.year, 4) + Rest(c)
  }

  /** Everything after the year; the zone of a UTC time is the letter Z. */
  function Rest(c: Civil): GoString {
    Pair(DASH, c.month) + Pair(DASH, c.day) + Pair(LETTER_T, c.hour)
      + Pair(COLON, c.minute) + Pair(COLON, c.second) + [LETTER_Z]
  }

  /** A separator and a number of at least two digits. */
  function Pair(separator: byte, x: int): GoString {
    [separator] + AppendInt(x, 2)
  }

  predicate IsDigit(c: byte) {
    48 <= c <= 57
  }

  function Number(s: GoString): (n: nat)
    requires forall c <- s :: IsDigit(c)
  {
    if s == [] then 0 else
      assert IsDigit(s[|s| - 1]);
      Number(s[..|s| - 1]) * 10 + s[|s| - 1] - 48
  }

  /** YYYY-MM-DDThh:mm:ssZ */
  predicate HasShape(s: GoString) {
    && |s| == 20
    && s[4] == s[7] == DASH && s[10] == LETTER_T && s[13] == s[16] == COLON && s[19] == LETTER_Z
    && forall k | 0 <= k < 20 && k != 4 && k != 7 && k != 10 && k != 13 && k != 16 && k != 19 :: IsDigit(s[k])
  }

  function Fields(s: GoString): Option<Civil> {
    if !HasShape(s) then None
    else Some(Civil(Number(s[..4]), Number(s[5..7]), Number(s[8..10]),
                    Number(s[11..13]), Number(s[14..16]), Number(s[17..19])))
  }

  /** The instant a text denotes, in seconds; None unless it is a valid date and time. */
  function Read(s: GoString): Option<int> {
    match Fields(s)
    case Some(c) => if IsValid(c) then Some(SecondsOf(c)) else None
    case None => None
  }

  function Pow10(w: nat): nat {
    if w == 0 then 1 else 10 * Pow10(w - 1)
  }

  lemma DayBelow100(c: Civil)
    requires IsValid(c)
    ensures c.day < 100
  {
  }

  lemma {:induction false} DigitsInverse(u: nat, width: nat)
    ensures forall c <- Digits(u, width) :: IsDigit(c)
    ensures Number(Digits(u, width)) == u
    decreases u + width
  {
    if u != 0 || width != 0 {
      var w := if width == 0 then 0 else width - 1;
      DigitsInverse(u / 10, w);
      assert Digits(u, width)[..|Digits(u, width)| - 1] == Digits(u / 10, w);
    }
  }

  lemma {:induction false} DigitsFit(u: nat, width: nat)
    ensures |Digits(u, width)| >= width
    ensures |Digits(u, width)| == width <==> u < Pow10(width)
    ensures Pow10(2) == 100 && Pow10(4) == 10000
    decreases u + width
  {
    if u != 0 || width != 0 {
      DigitsFit(u / 10, if width == 0 then 0 else width - 1);
    }
    assert Pow10(1) == 10;
    assert Pow10(3) == 1000;
  }

  lemma PairRead(separator: byte, u: nat)
    requires u < 100
    ensures var p := Pair(separator, u);
            |p| == 3 && p[0] == separator && IsDigit(p[1]) && IsDigit(p[2]) && Number(p[1..]) == u
  {
    DigitsFit(u, 2);
    DigitsInverse(u, 2);
    var p := Pair(separator, u);
    assert p[1..] == Digits(u, 2);
    assert p[1] == Digits(u, 2)[0] && p[2] == Digits(u, 2)[1];
  }

  lemma FiveTriples(a: GoString, b: GoString, c: GoString, d: GoString, e: GoString, z: byte)
    requires |a| == |b| == |c| == |d| == |e| == 3
    ensures var r := a + b + c + d + e + [z];
            |r| == 16 && r[0..3] == a && r[3..6] == b && r[6..9] == c && r[9..12] == d && r[12..15] == e && r[15] == z
  {
    var ab, abc := a + b, a + b + c;
    var abcd := abc + d;
    var r := abcd + e + [z];
    assert r[12..15] == e;
    assert r[..12] == abcd && abcd[..9] == abc && abc[..6] == ab;
    assert r[9..12] == abcd[9..12] == d;
    assert r[6..9] == abc[6..9] == c;
    assert r[3..6] == ab[3..6] == b;
    assert r[0..3] == ab[0..3] == a;
  }

  /** Cutting the text at its fixed columns gives the printed numbers. */
  lemma RestColumns(c: Civil)
    requires IsValid(c) && c.day < 100
    ensures var r := Rest(c);
            && |r| == 16 && r[0..3] == Pair(DASH, c.month) && r[3..6] == Pair(DASH, c.day)
            && r[6..9] == Pair(LETTER_T, c.hour)
            && r[9..12] == Pair(COLON, c.minute) && r[12..15] == Pair(COLON, c.second) && r[15] == LETTER_Z
  {
    PairRead(DASH, c.month);
    PairRead(DASH, c.day);
    PairRead(LETTER_T, c.hour);
    PairRead(COLON, c.minute);
    PairRead(COLON, c.second);
    FiveTriples(Pair(DASH, c.month), Pair(DASH, c.day), Pair(LETTER_T, c.hour),
                Pair(COLON, c.minute), Pair(COLON, c.second), LETTER_Z);
  }

  /** Two digits at columns i and i + 1, reading u. */
  predicate ReadsAt(r: GoString, i: nat, u: int)
    requires i + 2 <= |r|
  {
    IsDigit(r[i]) && IsDigit(r[i + 1]) && (forall c <- r[i..i + 2] :: IsDigit(c)) && Number(r[i..i + 2]) == u
  }

  /** The printed pair at column i of the text after the year. */
  lemma PairAt(r: GoString, i: nat, separator: byte, u: nat)
    requires i + 3 <= |r| && u < 100 && r[i..i + 3] == Pair(separator, u)
    ensures r[i] == separator && ReadsAt(r, i + 1, u)
  {
    PairRead(separator, u);
    assert r[i + 1..i + 3] == r[i..i + 3][1..];
    assert r[i + 1] == r[i..i + 3][1] && r[i + 2] == r[i..i + 3][2];
  }

  /** The columns of a four-digit year and the text after it. */
  lemma ColumnsShift(year: GoString, r: GoString)
    requires |year| == 4 && |r| == 16
    ensures var s := year + r;
      && s[..4] == year && s[5..7] == r[1..3] && s[8..10] == r[4..6]
      && s[11..13] == r[7..9] && s[14..16] == r[10..12] && s[17..19] == r[13..15]
  {
  }

  lemma ShapeOf(year: GoString, r: GoString)
    requires |year| == 4 && (forall k | 0 <= k < 4 :: IsDigit(year[k])) && |r| == 16
    requires r[0] == r[3] == DASH && r[6] == LETTER_T && r[9] == r[12] == COLON && r[15] == LETTER_Z
    requires IsDigit(r[1]) && IsDigit(r[2]) && IsDigit(r[4]) && IsDigit(r[5]) && IsDigit(r[7]) && IsDigit(r[8])
    requires IsDigit(r[10]) && IsDigit(r[11]) && IsDigit(r[13]) && IsDigit(r[14])
    ensures HasShape(year + r)
  {
  }

  lemma YearRead(y: nat)
    requires y <= 9999
    ensures var year := AppendInt(y, 4);
      && |year| == 4 && (forall k | 0 <= k < 4 :: IsDigit(year[k]))
      && (forall c <- year :: IsDigit(c)) && Number(year) == y
  {
    DigitsInverse(y, 4);
    DigitsFit(y, 4);
  }

  lemma RestNumbers(c: Civil)
    requires IsValid(c) && c.day < 100
    ensures var r := Rest(c);
      && |r| == 16 && r[0] == r[3] == DASH && r[6] == LETTER_T && r[9] == r[12] == COLON && r[15] == LETTER_Z
      && ReadsAt(r, 1, c.month) && ReadsAt(r, 4, c.day) && ReadsAt(r, 7, c.hour)
      && ReadsAt(r, 10, c.minute) && ReadsAt(r, 13, c.second)
  {
    var r := Rest(c);
    RestColumns(c);
    PairAt(r, 0, DASH, c.month);
    PairAt(r, 3, DASH, c.day);
    PairAt(r, 6, LETTER_T, c.hour);
    PairAt(r, 9, COLON, c.minute);
    PairAt(r, 12, COLON, c.second);
  }

  lemma FieldsOfText(c: Civil)
    requires IsValid(c) && c.day < 100 && 0 <= c.year <= 9999
    ensures Fields(AppendInt(c.year, 4) + Rest(c)) == Some(c)
  {
    YearRead(c.year);
    RestNumbers(c);
    ShapeOf(AppendInt(c.year, 4), Rest(c));
    ColumnsShift(AppendInt(c.year, 4), Rest(c));
  }

  lemma FormatFields(t: Time)
    requires HasFourDigitYear(t.sec)
    ensures Fields(Format(t)) == Some(CivilOf(t.sec))
  {
    var c := CivilOf(t.sec);
    FourDigitYears(t.sec);
    CivilInverse(t.sec);
    DayBelow100(c);
    FieldsOfText(c);
  }

  /** The number that digits i and i + 1 spell. */
  function TwoAt(s: GoString, i: nat): int
    requires i + 2 <= |s|
  {
    (s[i] as int - 48) * 10 + (s[i + 1] as int - 48)
  }

  lemma TwoDigitNumber(s: GoString)
    requires |s| == 2 && forall c <- s :: IsDigit(c)
    ensures Number(s) == TwoAt(s, 0)
  {
    assert IsDigit(s[0]) && s[..1] == [s[0]] && [s[0]][..0] == [];
    assert Number([s[0]]) == s[0] as int - 48;
  }

  lemma FourDigitNumber(s: GoString)
    requires |s| == 4 && forall c <- s :: IsDigit(c)
    ensures Number(s) == TwoAt(s, 0) * 100 + TwoAt(s, 2)
  {
    var two, three := s[..2], s[..3];
    assert three[..2] == two;
    TwoDigitNumber(two);
    assert IsDigit(s[2]) && IsDigit(s[3]);
    assert Number(three) == Number(two) * 10 + (s[2] as int - 48);
  }

  lemma TwoInText(s: GoString, i: nat)
    requires i + 2 <= |s| && forall c <- s[i..i + 2] :: IsDigit(c)
    ensures Number(s[i..i + 2]) == TwoAt(s, i)
  {
    TwoDigitNumber(s[i..i + 2]);
  }

  lemma FourInText(s: GoString)
    requires |s| >= 4 && forall c <- s[..4] :: IsDigit(c)
    ensures Number(s[..4]) == TwoAt(s, 0) * 100 + TwoAt(s, 2)
  {
    FourDigitNumber(s[..4]);
  }

  lemma FieldsInColumns(s: GoString, c: Civil)
    requires Fields(s) == Some(c)
    ensures |s| == 20 && s[4] == s[7] == DASH && s[10] == LETTER_T && s[13] == s[16] == COLON && s[19] == LETTER_Z
    ensures TwoAt(s, 0) * 100 + TwoAt(s, 2) == c.year && TwoAt(s, 5) == c.month && TwoAt(s, 8) == c.day
    ensures TwoAt(s, 11) == c.hour && TwoAt(s, 14) == c.minute && TwoAt(s, 17) == c.second
  {
    FourInText(s);
    TwoInText(s, 5);
    TwoInText(s, 8);
    TwoInText(s, 11);
    TwoInText(s, 14);
    TwoInText(s, 17);
  }

  /** The layout 2006-01-02T15:04:05Z: the digits in each column spell the field that belongs there,
      between dashes (45), T (84), colons (58) and Z (90). */
  lemma TextColumns(t: Time)
    requires HasFourDigitYear(t.sec)
    ensures var s, c := Format(t), CivilOf(t.sec);
      && |s| == 20 && s[4] == 45 && s[7] == 45 && s[10] == 84 && s[13] == 58 && s[16] == 58 && s[19] == 90
      && TwoAt(s, 0) * 100 + TwoAt(s, 2) == c.year && TwoAt(s, 5) == c.month && TwoAt(s, 8) == c.day
      && TwoAt(s, 11) == c.hour && TwoAt(s, 14) == c.minute && TwoAt(s, 17) == c.second
  {
    FormatFields(t);
    FieldsInColumns(Format(t), CivilOf(t.sec));
  }

  lemma LongYearUnread(y: int, rest: GoString)
    requires y > 9999 || y < 0
    ensures Fields(AppendInt(y, 4) + rest).None?
  {
    var text := AppendInt(y, 4);
    if y < 0 {
      assert (text + rest)[0] == DASH;
    } else {
      DigitsFit(y, 4);
      DigitsInverse(y, 4);
      assert (text + rest)[4] == text[4] && IsDigit(text[4]);
    }
  }

  /** Reading the text of an instant gives back its second exactly for the years 0000 to 9999. */
  lemma ReadFormat(t: Time)
    ensures Read(Format(t)) == Some(t.sec) <==> HasFourDigitYear(t.sec)
  {
    var c := CivilOf(t.sec);
    FourDigitYears(t.sec);
    CivilInverse(t.sec);
    if HasFourDigitYear(t.sec) {
      FormatFields(t);
    } else {
      LongYearUnread(c.year, Rest(c));
    }
  }

  /** A year is reached when its first day is. */
  lemma YearReached(d: int, year: int)
    ensures YearOf(d) >= year <==> d >= DaysBeforeYear(year)
  {
    var y := YearOf(d);
    YearHoldsDay(d);
    if y < year {
      YearsOrderedNext(y, year);
    } else if y > year {
      YearsOrdered(year, y);
    }
  }

  /** From 0000-01-01T00:00:00Z up to and including 9999-12-31T23:59:59Z. */
  predicate HasFourDigitYear(sec: int) {
    -62_167_219_200 <= sec < 253_402_300_800
  }

  lemma FourDigitYears(sec: int)
    ensures 0 <= CivilOf(sec).year <= 9999 <==> HasFourDigitYear(sec)
  {
    var d := sec / 86400 + DAYS_TO_EPOCH;
    YearReached(d, 0);
    YearReached(d, 10000);
    assert DaysBeforeYear(0) == -366 && DaysBeforeYear(10000) == 3652059;
  }

  lemma YearTextInjective(y: int, z: int)
    ensures AppendInt(y, 4) == AppendInt(z, 4) ==> y == z
  {
    var u, v := if y < 0 then -y else y, if z < 0 then -z else z;
    DigitsInverse(u, 4);
    DigitsInverse(v, 4);
    DigitsFit(u, 4);
    DigitsFit(v, 4);
    assert IsDigit(Digits(u, 4)[0]) && IsDigit(Digits(v, 4)[0]);
    if y < 0 && z < 0 {
      assert AppendInt(y, 4)[1..] == Digits(u, 4) && AppendInt(z, 4)[1..] == Digits(v, 4);
    }
  }

  lemma RestInjective(c: Civil, e: Civil)
    requires IsValid(c) && IsValid(e) && Rest(c) == Rest(e)
    ensures c == e.(year := c.year)
  {
    DayBelow100(c);
    DayBelow100(e);
    RestNumbers(c);
    RestNumbers(e);
  }

  /** The text tells apart the seconds of any two instants, in every year. */
  lemma FormatInjective(t: Time, u: Time)
    ensures Format(t) == Format(u) <==> t.sec == u.sec
  {
    if Format(t) == Format(u) {
      var c, e := CivilOf(t.sec), CivilOf(u.sec);
      CivilInverse(t.sec);
      CivilInverse(u.sec);
      DayBelow100(c);
      DayBelow100(e);
      RestNumbers(c);
      RestNumbers(e);
      SameSuffix(AppendInt(c.year, 4), Rest(c), AppendInt(e.year, 4), Rest(e));
      RestInjective(c, e);
      YearTextInjective(c.year, e.year);
    }
  }

  lemma SameSuffix<T>(a: seq<T>, b: seq<T>, c: seq<T>, d: seq<T>)
    requires a + b == c + d && |b| == |d|
    ensures a == c && b == d
  {
    ConcatParts(a, b);
    ConcatParts(c, d);
  }

  /** A microsecond count in the layout of the dump. */
  function MicrosText(us: int): GoString {
    Format(Time(us / 1_000_000, 0))
  }

  /** Near the exact count x lies the second of t, and nowhere else. */
  lemma SecondOfMicros(t: Time, us: int)
    ensures var x := t.sec * 1_000_000 + t.nsec / 1000;
      && (us == x ==> us / 1_000_000 == t.sec)
      && (us - x >= 1_000_000 || x - us >= 1_000_000 ==> us / 1_000_000 != t.sec)
  {
    assert 0 <= t.nsec / 1000 < 1_000_000;
  }

  lemma SecondKept(t: Time)
    ensures UnixMicro(t) / 1_000_000 == t.sec <==> FitsMicros(t)
  {
    var x := t.sec * 1_000_000 + t.nsec / 1000;
    SecondOfMicros(t, UnixMicro(t));
    if FitsMicros(t) {
      Int64Exact(x);
    } else {
      Int64Wraps(x);
    }
  }

  /** The microseconds of a time print as the time itself exactly when they fit an int64. */
  lemma MicrosTextExact(t: Time, text: GoString)
    requires text == Format(t)
    ensures MicrosText(UnixMicro(t)) == text <==> FitsMicros(t)
  {
    SecondKept(t);
    FormatInjective(Time(UnixMicro(t) / 1_000_000, 0), t);
  }

  lemma MicrosFit(t: Time)
    requires HasFourDigitYear(t.sec)
    ensures FitsMicros(t) && UnixMicro(t) == t.sec * 1_000_000 + t.nsec / 1000
  {
    var x := t.sec * 1_000_000 + t.nsec / 1000;
    assert -62_167_219_200 * 1_000_000 <= x < 253_402_300_800 * 1_000_000;
    Int64Exact(x);
  }

  /** The text and the microsecond timestamp denote the same instant exactly when the certificate
      time has no whole microsecond below its second; no int64 overflow can occur. */
  lemma TextAndTimestampAgree(t: Time)
    requires HasFourDigitYear(t.sec)
    ensures UnixMicro(t) == t.sec * 1_000_000 + t.nsec / 1000
    ensures Read(Format(t)) == Some(t.sec)
    ensures t.sec * 1_000_000 == UnixMicro(t) <==> t.nsec < 1000
  {
    MicrosFit(t);
    ReadFormat(t);
  }

  /** Both renderings keep the order of whole-second times, and the text tells them apart. */
  lemma TimesOrdered(t: Time, u: Time)
    requires HasFourDigitYear(t.sec) && HasFourDigitYear(u.sec)
    requires t.nsec == u.nsec == 0
    ensures Before(t, u) <==> UnixMicro(t) < UnixMicro(u)
    ensures Before(t, u)
            <==> Read(Format(t)).Some? && Read(Format(u)).Some? && Read(Format(t)).value < Read(Format(u)).value
    ensures Format(t) == Format(u) <==> t == u
  {
    TextAndTimestampAgree(t);
    TextAndTimestampAgree(u);
    ReadFormat(t);
    ReadFormat(u);
  }

  lemma DigitAppended(n: nat, d: nat, width: nat)
    requires d < 10
    ensures Digits(n * 10 + d, width + 1) == Digits(n, width) + [48 + d]
  {
    assert (n * 10 + d) / 10 == n && (n * 10 + d) % 10 == d;
  }

  lemma {:induction false} NumberInverse(s: GoString)
    requires forall c <- s :: IsDigit(c)
    ensures Digits(Number(s), |s|) == s
  {
    if s != [] {
      var front, d := s[..|s| - 1], s[|s| - 1];
      NumberInverse(front);
      assert IsDigit(d) && s == front + [d];
      DigitAppended(Number(front), d - 48, |front|);
    }
  }

  lemma TwoDigits(two: GoString)
    requires |two| == 2 && forall c <- two :: IsDigit(c)
    ensures Number(two) < 100 && AppendInt(Number(two), 2) == two
  {
    NumberInverse(two);
    DigitsFit(Number(two), 2);
  }

  lemma SliceNumber(s: GoString, i: nat, j: nat, separator: byte)
    requires 0 < i <= j <= |s| && j == i + 2
    requires s[i - 1] == separator && IsDigit(s[i]) && IsDigit(s[i + 1])
    ensures (forall c <- s[i..j] :: IsDigit(c)) && Number(s[i..j]) < 100
    ensures Pair(separator, Number(s[i..j])) == s[i - 1..j]
  {
    assert forall c <- s[i..j] :: IsDigit(c);
    TwoDigits(s[i..j]);
    assert s[i - 1..j] == [separator] + s[i..j];
  }

  /** The year digits and the pairs of a text are those its own numbers print. */
  lemma ShapeReprinted(s: GoString)
    requires HasShape(s)
    ensures (forall d <- s[..4] :: IsDigit(d)) && Digits(Number(s[..4]), 4) == s[..4]
  {
    assert forall d <- s[..4] :: IsDigit(d);
    NumberInverse(s[..4]);
  }

  lemma SixSlices(s: GoString)
    requires |s| == 20
    ensures s[4..] == s[4..7] + s[7..10] + s[10..13] + s[13..16] + s[16..19] + [s[19]]
  {
  }

  lemma RestReprinted(s: GoString, c: Civil)
    requires Fields(s) == Some(c) && IsValid(c) && c.day < 100
    ensures Rest(c) == s[4..]
  {
    SliceNumber(s, 5, 7, DASH);
    SliceNumber(s, 8, 10, DASH);
    SliceNumber(s, 11, 13, LETTER_T);
    SliceNumber(s, 14, 16, COLON);
    SliceNumber(s, 17, 19, COLON);
    SixSlices(s);
  }

  /** Every text the reader accepts is the one Format prints for its instant. */
  lemma FormatRead(s: GoString, sec: int)
    requires Read(s) == Some(sec)
    ensures Format(Time(sec, 0)) == s
  {
    var c := Fields(s).value;
    CivilUnique(c);
    DayBelow100(c);
    ShapeReprinted(s);
    RestReprinted(s, c);
    assert s == s[..4] + s[4..];
  }
}
