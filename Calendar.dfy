// Dates and timestamps as the loaders read and write them: datetime.strptime
// against a fixed pattern (order timestamps `%Y-%m-%d %H:%M:%S`, deal
// timestamps `%d.%m.%Y %H:%M:%S`) and date.strftime('%d/%m/%Y') for the
// rate feed's request date. Patterns are read strictly fixed-width.
module Calendar {
  import opened Base
  import opened Strings
  import opened Numbers

  datatype Date = Date(year: int, month: int, day: int)
  datatype DateTime = DateTime(date: Date, hour: int, minute: int, second: int)

  predicate IsLeapYear(y: int) {
    y % 4 == 0 && (y % 100 != 0 || y % 400 == 0)
  }

  function DaysInMonth(y: int, m: int): (n: int)
    requires 1 <= m <= 12
    ensures 28 <= n <= 31
    ensures m == 2 ==> (n == 29 <==> IsLeapYear(y))
  {
    if m == 2 then (if IsLeapYear(y) then 29 else 28)
    else if m == 4 || m == 6 || m == 9 || m == 11 then 30
    else 31
  }

  /** A date Python's `date` type accepts (MINYEAR 1 to MAXYEAR 9999). */
  predicate ValidDate(d: Date) {
    1 <= d.year <= 9999 && 1 <= d.month <= 12 && 1 <= d.day <= DaysInMonth(d.year, d.month)
  }

  /** A date object: always a real calendar day. */
  type CalendarDate = d: Date | ValidDate(d) witness Date(1900, 1, 1)

  predicate ValidDateTime(t: DateTime) {
    ValidDate(t.date) && 0 <= t.hour < 24 && 0 <= t.minute < 60 && 0 <= t.second < 60
  }

  /** The strptime/strftime directives the loaders use. */
  datatype FieldKind = Year | Month | Day | Hour | Minute | Second

  /** One directive read or written with a fixed number of digits, or one
      literal separator character. */
  datatype Token = Field(kind: FieldKind, width: nat) | Sep(c: char)

  type Pattern = seq<Token>

  /** '%Y-%m-%d %H:%M:%S' */
  const OrderPattern: Pattern :=
    [Field(Year, 4), Sep('-'), Field(Month, 2), Sep('-'), Field(Day, 2), Sep(' '),
     Field(Hour, 2), Sep(':'), Field(Minute, 2), Sep(':'), Field(Second, 2)]

  /** '%d.%m.%Y %H:%M:%S' */
  const DealPattern: Pattern :=
    [Field(Day, 2), Sep('.'), Field(Month, 2), Sep('.'), Field(Year, 4), Sep(' '),
     Field(Hour, 2), Sep(':'), Field(Minute, 2), Sep(':'), Field(Second, 2)]

  /** '%d/%m/%Y' */
  const RequestPattern: Pattern :=
    [Field(Day, 2), Sep('/'), Field(Month, 2), Sep('/'), Field(Year, 4)]

  function Get(t: DateTime, k: FieldKind): int {
    match k
    case Year => t.date.year
    case Month => t.date.month
    case Day => t.date.day
    case Hour => t.hour
    case Minute => t.minute
    case Second => t.second
  }

  /** Every field the pattern writes fits its width. */
  predicate Fits(p: Pattern, t: DateTime) {
    forall i :: 0 <= i < |p| && p[i].Field? ==> 0 <= Get(t, p[i].kind) < Pow10(p[i].width)
  }

  /** strftime: each directive zero-padded to its width. */
  function Render(p: Pattern, t: DateTime): (s: string)
    requires Fits(p, t)
  {
    if p == [] then []
    else
      var head := match p[0]
        case Field(k, w) => PadDigits(Get(t, k), w)
        case Sep(c) => [c];
      head + Render(p[1..], t)
  }

  /** The field values a fixed-width reading of `s` against `p` yields, or
      None when `s` does not have the pattern's shape. */
  function Scan(p: Pattern, s: string): Option<map<FieldKind, nat>> {
    if p == [] then (if s == [] then Some(map[]) else None)
    else
      match p[0]
      case Sep(c) =>
        if s != [] && s[0] == c then Scan(p[1..], s[1..]) else None
      case Field(k, w) =>
        if w <= |s| && AllDigits(s[..w]) then
          match Scan(p[1..], s[w..])
          case None => None
          case Some(m) => Some(m[k := DigitsValue(s[..w])])
        else None
  }

  function FieldOr(m: map<FieldKind, nat>, k: FieldKind, default: int): int {
    if k in m then m[k] else default
  }

  /** datetime.strptime(s, p): a missing directive takes strptime's default
      (1900-01-01 00:00:00) and the result must be a real calendar instant. */
  function Parse(p: Pattern, s: string): (r: Option<DateTime>)
    ensures r.Some? ==> ValidDateTime(r.value)
  {
    match Scan(p, s)
    case None => None
    case Some(m) =>
      var t := DateTime(Date(FieldOr(m, Year, 1900), FieldOr(m, Month, 1), FieldOr(m, Day, 1)),
                        FieldOr(m, Hour, 0), FieldOr(m, Minute, 0), FieldOr(m, Second, 0));
      if ValidDateTime(t) then Some(t) else None
  }

  /** The values of the fields `p` mentions. */
  function FieldsOf(p: Pattern, t: DateTime): map<FieldKind, nat>
    requires Fits(p, t)
  {
    if p == [] then map[]
    else
      match p[0]
      case Sep(_) => FieldsOf(p[1..], t)
      case Field(k, _) => FieldsOf(p[1..], t)[k := Get(t, k)]
  }

  /** Reading back what was written recovers every field written. */
  lemma {:induction false} ScanRender(p: Pattern, t: DateTime)
    requires Fits(p, t)
    ensures Scan(p, Render(p, t)) == Some(FieldsOf(p, t))
  {
    if p != [] {
      assert Fits(p[1..], t) by {
        forall i | 0 <= i < |p| - 1 && p[1..][i].Field?
          ensures 0 <= Get(t, p[1..][i].kind) < Pow10(p[1..][i].width)
        {
          assert p[1..][i] == p[i + 1];
        }
      }
      var s := Render(p, t);
      var rest := Render(p[1..], t);
      ScanRender(p[1..], t);
      match p[0]
      case Sep(c) =>
        assert s == [c] + rest;
        assert s[1..] == rest;
      case Field(k, w) =>
        assert 0 <= Get(t, k) < Pow10(w) by { assert p[0].Field?; }
        var head := PadDigits(Get(t, k), w);
        assert s == head + rest;
        assert s[..w] == head && s[w..] == rest;
        PadDigitsValue(Get(t, k), w);
    }
  }

  /** `p` has a directive for `k`. */
  ghost predicate Mentions(p: Pattern, k: FieldKind) {
    exists i :: 0 <= i < |p| && p[i].Field? && p[i].kind == k
  }

  /** The fields read are exactly the ones the pattern mentions, with the
      values written. */
  lemma {:induction false} FieldsOfKeys(p: Pattern, t: DateTime, k: FieldKind)
    requires Fits(p, t)
    ensures k in FieldsOf(p, t) <==> Mentions(p, k)
    ensures k in FieldsOf(p, t) ==> FieldsOf(p, t)[k] == Get(t, k)
  {
    if p != [] {
      assert Fits(p[1..], t) by {
        forall i | 0 <= i < |p| - 1 && p[1..][i].Field?
          ensures 0 <= Get(t, p[1..][i].kind) < Pow10(p[1..][i].width)
        {
          assert p[1..][i] == p[i + 1];
        }
      }
      FieldsOfKeys(p[1..], t, k);
      if Mentions(p[1..], k) {
        var i :| 0 <= i < |p| - 1 && p[1..][i].Field? && p[1..][i].kind == k;
        assert p[i + 1] == p[1..][i];
      }
      if Mentions(p, k) && !(p[0].Field? && p[0].kind == k) {
        var i :| 0 <= i < |p| && p[i].Field? && p[i].kind == k;
        assert i > 0 && p[1..][i - 1] == p[i];
      }
    }
  }

  /** strptime reads back what strftime wrote with the same pattern; fields
      the pattern does not mention come back as strptime's defaults. */
  lemma ParseRender(p: Pattern, t: DateTime)
    requires ValidDateTime(t) && Fits(p, t)
    requires Mentions(p, Year) && Mentions(p, Month) && Mentions(p, Day)
    ensures Parse(p, Render(p, t))
         == Some(DateTime(t.date, if Mentions(p, Hour) then t.hour else 0,
                          if Mentions(p, Minute) then t.minute else 0,
                          if Mentions(p, Second) then t.second else 0))
  {
    ScanRender(p, t);
    FieldRead(p, t, Year, 1900);
    FieldRead(p, t, Month, 1);
    FieldRead(p, t, Day, 1);
    FieldRead(p, t, Hour, 0);
    FieldRead(p, t, Minute, 0);
    FieldRead(p, t, Second, 0);
  }

  /** The value a read-back field takes: the one written when the pattern
      mentions it, strptime's default otherwise. */
  lemma FieldRead(p: Pattern, t: DateTime, k: FieldKind, default: int)
    requires Fits(p, t)
    ensures FieldOr(FieldsOf(p, t), k, default) == if Mentions(p, k) then Get(t, k) else default
  {
    FieldsOfKeys(p, t, k);
  }

  /** No directive appears twice in the pattern. */
  predicate DistinctFields(p: Pattern) {
    forall i, j :: 0 <= i < j < |p| && p[i].Field? && p[j].Field? ==> p[i].kind != p[j].kind
  }

  /** Every field a reading yields is one the pattern mentions. */
  lemma {:induction false} ScanKeys(p: Pattern, s: string, k: FieldKind)
    requires Scan(p, s).Some? && k in Scan(p, s).value
    ensures Mentions(p, k)
  {
    assert p != [];
    if !(p[0].Field? && p[0].kind == k) {
      var rest := if p[0].Sep? then s[1..] else s[p[0].width..];
      ScanKeys(p[1..], rest, k);
      var i :| 0 <= i < |p| - 1 && p[1..][i].Field? && p[1..][i].kind == k;
      assert p[i + 1] == p[1..][i];
    } else {
      assert p[0].Field? && p[0].kind == k;
    }
  }

  lemma TailDistinct(p: Pattern)
    requires p != [] && DistinctFields(p)
    ensures DistinctFields(p[1..])
    ensures p[0].Field? ==> !Mentions(p[1..], p[0].kind)
  {
    forall i, j | 0 <= i < j < |p| - 1 && p[1..][i].Field? && p[1..][j].Field?
      ensures p[1..][i].kind != p[1..][j].kind
    {
      assert p[1..][i] == p[i + 1] && p[1..][j] == p[j + 1];
    }
    if p[0].Field? {
      forall i | 0 <= i < |p| - 1 && p[1..][i].Field? ensures p[1..][i].kind != p[0].kind {
        assert p[1..][i] == p[i + 1];
      }
    }
  }

  lemma FitsCons(p: Pattern, t: DateTime)
    requires p != [] && Fits(p[1..], t)
    requires p[0].Field? ==> 0 <= Get(t, p[0].kind) < Pow10(p[0].width)
    ensures Fits(p, t)
  {
    forall i | 0 <= i < |p| && p[i].Field? ensures 0 <= Get(t, p[i].kind) < Pow10(p[i].width) {
      if i > 0 { assert p[i] == p[1..][i - 1]; }
    }
  }

  /** A text read against a pattern without repeated directives is exactly
      what strftime writes for an instant holding the values read. */
  lemma {:induction false} ScanRenders(p: Pattern, s: string, t: DateTime)
    requires DistinctFields(p) && Scan(p, s).Some?
    requires forall k :: k in Scan(p, s).value ==> Get(t, k) == Scan(p, s).value[k]
    ensures Fits(p, t) && Render(p, t) == s
  {
    if p != [] {
      TailDistinct(p);
      var rest := if p[0].Sep? then s[1..] else s[p[0].width..];
      ScanTail(p, s, t);
      ScanRenders(p[1..], rest, t);
      RenderHead(p, s, t);
    }
  }

  /** One step of a reading: the rest of the text is read by the rest of the
      pattern, and yields values the instant agrees with. */
  lemma ScanTail(p: Pattern, s: string, t: DateTime)
    requires p != [] && DistinctFields(p) && Scan(p, s).Some?
    requires forall k :: k in Scan(p, s).value ==> Get(t, k) == Scan(p, s).value[k]
    ensures var rest := if p[0].Sep? then s[1..] else s[p[0].width..];
            && (p[0].Sep? ==> s != [] && s[0] == p[0].c)
            && (p[0].Field? ==> p[0].width <= |s| && AllDigits(s[..p[0].width])
                                && Get(t, p[0].kind) == DigitsValue(s[..p[0].width]))
            && Scan(p[1..], rest).Some?
            && forall k :: k in Scan(p[1..], rest).value ==> Get(t, k) == Scan(p[1..], rest).value[k]
  {
    TailDistinct(p);
    match p[0]
    case Sep(c) =>
    case Field(k, w) =>
      var m := Scan(p[1..], s[w..]).value;
      assert Scan(p, s).value == m[k := DigitsValue(s[..w])];
      forall j | j in m ensures Get(t, j) == m[j] {
        ScanKeys(p[1..], s[w..], j);
      }
  }

  /** Writing the head of the pattern gives the head of the text read. */
  lemma RenderHead(p: Pattern, s: string, t: DateTime)
    requires p != [] && Fits(p[1..], t)
    requires p[0].Sep? ==> s != [] && s[0] == p[0].c && Render(p[1..], t) == s[1..]
    requires p[0].Field? ==> p[0].width <= |s| && AllDigits(s[..p[0].width])
                             && Get(t, p[0].kind) == DigitsValue(s[..p[0].width])
                             && Render(p[1..], t) == s[p[0].width..]
    ensures Fits(p, t) && Render(p, t) == s
  {
    match p[0]
    case Sep(c) =>
      FitsCons(p, t);
      assert s == [c] + s[1..];
    case Field(k, w) =>
      FitsCons(p, t);
      DigitsPadded(s[..w]);
      assert s == s[..w] + s[w..];
  }

  /** strptime accepts only what strftime writes: a text a pattern without
      repeated directives reads as `t` is that pattern rendered for `t`. */
  lemma ParseSound(p: Pattern, s: string, t: DateTime)
    requires DistinctFields(p) && Parse(p, s) == Some(t)
    ensures Fits(p, t) && Render(p, t) == s
  {
    var m := Scan(p, s).value;
    forall k | k in m ensures Get(t, k) == m[k] {
      match k
      case Year => assert t.date.year == FieldOr(m, Year, 1900);
      case Month => assert t.date.month == FieldOr(m, Month, 1);
      case Day => assert t.date.day == FieldOr(m, Day, 1);
      case Hour => assert t.hour == FieldOr(m, Hour, 0);
      case Minute => assert t.minute == FieldOr(m, Minute, 0);
      case Second => assert t.second == FieldOr(m, Second, 0);
    }
    ScanRenders(p, s, t);
  }

  /** strftime('%Y-%m-%d %H:%M:%S') is read back by the order loader's
      strptime. */
  lemma OrderPatternRoundTrip(t: DateTime)
    requires ValidDateTime(t)
    ensures Fits(OrderPattern, t) && Parse(OrderPattern, Render(OrderPattern, t)) == Some(t)
  {
    var p := OrderPattern;
    TimeFits(p, t);
    assert p[0] == Field(Year, 4) && p[2] == Field(Month, 2) && p[4] == Field(Day, 2);
    assert p[6] == Field(Hour, 2) && p[8] == Field(Minute, 2) && p[10] == Field(Second, 2);
    ParseRender(p, t);
  }

  /** strftime('%d.%m.%Y %H:%M:%S') is read back by the deal loaders'
      strptime. */
  lemma DealPatternRoundTrip(t: DateTime)
    requires ValidDateTime(t)
    ensures Fits(DealPattern, t) && Parse(DealPattern, Render(DealPattern, t)) == Some(t)
  {
    var p := DealPattern;
    TimeFits(p, t);
    assert p[4] == Field(Year, 4) && p[2] == Field(Month, 2) && p[0] == Field(Day, 2);
    assert p[6] == Field(Hour, 2) && p[8] == Field(Minute, 2) && p[10] == Field(Second, 2);
    ParseRender(p, t);
  }

  /** The order loader's strptime accepts a text as `t` exactly when `t` is
      a real instant and the text is `t` written with '%Y-%m-%d %H:%M:%S'. */
  lemma OrderPatternExact(s: string, t: DateTime)
    ensures Parse(OrderPattern, s) == Some(t)
        <==> ValidDateTime(t) && Fits(OrderPattern, t) && Render(OrderPattern, t) == s
  {
    if Parse(OrderPattern, s) == Some(t) {
      OrderPatternDistinct();
      ParseSound(OrderPattern, s, t);
    }
    if ValidDateTime(t) {
      OrderPatternRoundTrip(t);
    }
  }

  lemma OrderPatternDistinct()
    ensures DistinctFields(OrderPattern)
  {
    var p := OrderPattern;
    assert p[0].kind == Year && p[2].kind == Month && p[4].kind == Day;
    assert p[6].kind == Hour && p[8].kind == Minute && p[10].kind == Second;
  }

  /** The deal loaders' strptime accepts a text as `t` exactly when `t` is
      a real instant and the text is `t` written with '%d.%m.%Y %H:%M:%S'. */
  lemma DealPatternExact(s: string, t: DateTime)
    ensures Parse(DealPattern, s) == Some(t)
        <==> ValidDateTime(t) && Fits(DealPattern, t) && Render(DealPattern, t) == s
  {
    if Parse(DealPattern, s) == Some(t) {
      DealPatternDistinct();
      ParseSound(DealPattern, s, t);
    }
    if ValidDateTime(t) {
      DealPatternRoundTrip(t);
    }
  }

  lemma DealPatternDistinct()
    ensures DistinctFields(DealPattern)
  {
    var p := DealPattern;
    assert p[0].kind == Day && p[2].kind == Month && p[4].kind == Year;
    assert p[6].kind == Hour && p[8].kind == Minute && p[10].kind == Second;
  }

  /** A valid instant fits two-digit day, month, hour, minute and second
      fields and a four-digit year. */
  lemma TimeFits(p: Pattern, t: DateTime)
    requires ValidDateTime(t)
    requires forall i :: 0 <= i < |p| && p[i].Field? ==> p[i].width == (if p[i].kind == Year then 4 else 2)
    ensures Fits(p, t)
  {
    assert Pow10(2) == 100 && Pow10(4) == 10000;
  }

  /** date.strftime('%d/%m/%Y'), the feed's date_req parameter. */
  function RequestDate(d: Date): (s: string)
    requires ValidDate(d)
    ensures |s| == 10 && s[2] == '/' && s[5] == '/'
  {
    var t := DateTime(d, 0, 0, 0);
    TimeFits(RequestPattern, t);
    RequestDateShape(d);
    Render(RequestPattern, t)
  }

  /** The request date reads back, with the same pattern, as the day it
      was written from. */
  lemma RequestDateParses(d: Date)
    requires ValidDate(d)
    ensures Parse(RequestPattern, RequestDate(d)) == Some(DateTime(d, 0, 0, 0))
  {
    var t := DateTime(d, 0, 0, 0);
    var p := RequestPattern;
    TimeFits(p, t);
    assert p[4] == Field(Year, 4) && p[2] == Field(Month, 2) && p[0] == Field(Day, 2);
    assert !Mentions(p, Hour) && !Mentions(p, Minute) && !Mentions(p, Second);
    ParseRender(p, t);
  }

  lemma RequestDateShape(d: Date)
    requires ValidDate(d)
    ensures var t := DateTime(d, 0, 0, 0);
            Fits(RequestPattern, t) && var s := Render(RequestPattern, t);
            |s| == 10 && s[2] == '/' && s[5] == '/'
  {
    var t := DateTime(d, 0, 0, 0);
    var p := RequestPattern;
    TimeFits(p, t);
    var dd, mm, yy := PadDigits(d.day, 2), PadDigits(d.month, 2), PadDigits(d.year, 4);
    var p1, p2, p3, p4 := p[1..], p[2..], p[3..], p[4..];
    assert p1[1..] == p2 && p2[1..] == p3 && p3[1..] == p4 && p4[1..] == [];
    assert Render(p4, t) == yy;
    assert Render(p3, t) == "/" + yy;
    assert Render(p2, t) == mm + "/" + yy;
    assert Render(p1, t) == "/" + mm + "/" + yy;
    assert Render(p, t) == dd + "/" + mm + "/" + yy;
  }
}
