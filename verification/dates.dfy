/** Date normalisation shared by both collectors (`ddmmyyyy` in scraper/io_utils.py).

    Each `strptime` template is a token list. CPython compiles a template to a
    regular expression (every run of spaces becomes `\s+`, matching ignores case)
    and rejects a match that leaves unconverted text. Every directive tries its
    longest alternative first, and the token that follows a directive can never
    start with the characters a shorter alternative would leave behind, so the
    backtracking match equals the deterministic left-to-right reading below. */
module Dates {
  import opened Strings
  import opened Wrappers


  datatype Directive =
    | Year        // %Y  \d\d\d\d
    | Month       // %m  1[0-2]|0[1-9]|[1-9]
    | Day         // %d  3[01]|[12]\d|0[1-9]|[1-9]| [1-9]
    | Hour        // %H  2[0-3]|[0-1]\d|\d
    | Minute      // %M  [0-5]\d|\d
    | Second      // %S  6[0-1]|[0-5]\d|\d
    | MonthAbbr   // %b  English abbreviations, any case
    | MonthFull   // %B  English month names, any case

  datatype Token = Lit(c: char) | Spaces | Dir(d: Directive)

  /** What a directive consumed: its numeric value and how many characters it read. */
  datatype Read = Read(value: nat, len: nat)

  /** The fields `strptime` fills in; unset fields keep its defaults (1900-01-01 00:00:00). */
  datatype Fields = Fields(year: nat, month: nat, day: nat, hour: nat, minute: nat, second: nat)

  datatype Date = Date(day: nat, month: nat, year: nat)

  const Defaults := Fields(1900, 1, 1, 0, 0, 0)

  const Abbreviations: seq<string> :=
    ["jan", "feb", "mar", "apr", "may", "jun", "jul", "aug", "sep", "oct", "nov", "dec"]

  const FullNames: seq<string> :=
    ["january", "february", "march", "april", "may", "june", "july", "august",
     "september", "october", "november", "december"]

  // "%Y-%m-%d", "%Y-%m-%d %H:%M:%S", "%Y-%m-%d %H:%M", "%Y-%m-%d %H"
  const IsoDate: seq<Token> := [Dir(Year), Lit('-'), Dir(Month), Lit('-'), Dir(Day)]
  const IsoSeconds: seq<Token> :=
    IsoDate + [Spaces, Dir(Hour), Lit(':'), Dir(Minute), Lit(':'), Dir(Second)]
  const IsoMinutes: seq<Token> := IsoDate + [Spaces, Dir(Hour), Lit(':'), Dir(Minute)]
  const IsoHours: seq<Token> := IsoDate + [Spaces, Dir(Hour)]
  // "%d %b %Y", "%b %d %Y", "%d %B %Y", "%B %d %Y", "%Y %b %d", "%Y %B %d", "%Y"
  const DayAbbrYear: seq<Token> := [Dir(Day), Spaces, Dir(MonthAbbr), Spaces, Dir(Year)]
  const AbbrDayYear: seq<Token> := [Dir(MonthAbbr), Spaces, Dir(Day), Spaces, Dir(Year)]
  const DayFullYear: seq<Token> := [Dir(Day), Spaces, Dir(MonthFull), Spaces, Dir(Year)]
  const FullDayYear: seq<Token> := [Dir(MonthFull), Spaces, Dir(Day), Spaces, Dir(Year)]
  const YearAbbrDay: seq<Token> := [Dir(Year), Spaces, Dir(MonthAbbr), Spaces, Dir(Day)]
  const YearFullDay: seq<Token> := [Dir(Year), Spaces, Dir(MonthFull), Spaces, Dir(Day)]
  const YearOnly: seq<Token> := [Dir(Year)]
  /** "%d/%m/%Y", the last template, tried after the list. */
  const SlashDate: seq<Token> := [Dir(Day), Lit('/'), Dir(Month), Lit('/'), Dir(Year)]

  /** The templates in the order the source tries them. */
  const Templates: seq<seq<Token>> :=
    [IsoDate, IsoSeconds, IsoMinutes, IsoHours, DayAbbrYear, AbbrDayYear,
     DayFullYear, FullDayYear, YearAbbrDay, YearFullDay, YearOnly]

  predicate InRange(c: char, lo: char, hi: char) { lo <= c <= hi }

  function D(c: char): nat requires IsDigit(c) { DigitValue(c) }

  function ReadYear(s: string): (r: Option<Read>)
    ensures r.Some? ==> r.value.len == 4 && r.value.value < 10000
  {
    if |s| >= 4 && IsDigit(s[0]) && IsDigit(s[1]) && IsDigit(s[2]) && IsDigit(s[3])
    then Some(Read(D(s[0]) * 1000 + D(s[1]) * 100 + D(s[2]) * 10 + D(s[3]), 4))
    else None
  }

  function ReadMonthNumber(s: string): (r: Option<Read>)
    ensures r.Some? ==> 1 <= r.value.value <= 12 && 1 <= r.value.len <= 2
  {
    if |s| >= 2 && s[0] == '1' && InRange(s[1], '0', '2') then Some(Read(10 + D(s[1]), 2))
    else if |s| >= 2 && s[0] == '0' && InRange(s[1], '1', '9') then Some(Read(D(s[1]), 2))
    else if |s| >= 1 && InRange(s[0], '1', '9') then Some(Read(D(s[0]), 1))
    else None
  }

  function ReadDay(s: string): (r: Option<Read>)
    ensures r.Some? ==> 1 <= r.value.value <= 31 && 1 <= r.value.len <= 2
  {
    if |s| >= 2 && s[0] == '3' && InRange(s[1], '0', '1') then Some(Read(30 + D(s[1]), 2))
    else if |s| >= 2 && InRange(s[0], '1', '2') && IsDigit(s[1]) then Some(Read(D(s[0]) * 10 + D(s[1]), 2))
    else if |s| >= 2 && s[0] == '0' && InRange(s[1], '1', '9') then Some(Read(D(s[1]), 2))
    else if |s| >= 1 && InRange(s[0], '1', '9') then Some(Read(D(s[0]), 1))
    else if |s| >= 2 && s[0] == ' ' && InRange(s[1], '1', '9') then Some(Read(D(s[1]), 2))
    else None
  }

  function ReadHour(s: string): (r: Option<Read>)
    ensures r.Some? ==> r.value.value <= 23 && 1 <= r.value.len <= 2
  {
    if |s| >= 2 && s[0] == '2' && InRange(s[1], '0', '3') then Some(Read(20 + D(s[1]), 2))
    else if |s| >= 2 && InRange(s[0], '0', '1') && IsDigit(s[1]) then Some(Read(D(s[0]) * 10 + D(s[1]), 2))
    else if |s| >= 1 && IsDigit(s[0]) then Some(Read(D(s[0]), 1))
    else None
  }

  function ReadMinute(s: string): (r: Option<Read>)
    ensures r.Some? ==> r.value.value <= 59 && 1 <= r.value.len <= 2
  {
    if |s| >= 2 && InRange(s[0], '0', '5') && IsDigit(s[1]) then Some(Read(D(s[0]) * 10 + D(s[1]), 2))
    else if |s| >= 1 && IsDigit(s[0]) then Some(Read(D(s[0]), 1))
    else None
  }

  function ReadSecond(s: string): (r: Option<Read>)
    ensures r.Some? ==> r.value.value <= 61 && 1 <= r.value.len <= 2
  {
    if |s| >= 2 && s[0] == '6' && InRange(s[1], '0', '1') then Some(Read(60 + D(s[1]), 2))
    else if |s| >= 2 && InRange(s[0], '0', '5') && IsDigit(s[1]) then Some(Read(D(s[0]) * 10 + D(s[1]), 2))
    else if |s| >= 1 && IsDigit(s[0]) then Some(Read(D(s[0]), 1))
    else None
  }

  /** A month name from `names` at the start of `s`, ignoring case; month `k + 1` for `names[k]`.
      No name of either list is a prefix of another, so at most one can match and the
      order in which the regular expression lists them does not matter. */
  function ReadMonthName(s: string, names: seq<string>, k: nat): (r: Option<Read>)
    requires k <= |names|
    ensures r.Some? ==> k < r.value.value <= |names| && r.value.len <= |s|
    decreases |names| - k
  {
    if k == |names| then None
    else if |names[k]| <= |s| && Lower(s[..|names[k]|]) == names[k] then Some(Read(k + 1, |names[k]|))
    else ReadMonthName(s, names, k + 1)
  }

  function ReadDirective(d: Directive, s: string): (r: Option<Read>)
    ensures r.Some? ==> r.value.len <= |s|
  {
    match d
    case Year => ReadYear(s)
    case Month => ReadMonthNumber(s)
    case Day => ReadDay(s)
    case Hour => ReadHour(s)
    case Minute => ReadMinute(s)
    case Second => ReadSecond(s)
    case MonthAbbr => ReadMonthName(s, Abbreviations, 0)
    case MonthFull => ReadMonthName(s, FullNames, 0)
  }

  function SetField(f: Fields, d: Directive, v: nat): Fields
  {
    match d
    case Year => f.(year := v)
    case Month => f.(month := v)
    case MonthAbbr => f.(month := v)
    case MonthFull => f.(month := v)
    case Day => f.(day := v)
    case Hour => f.(hour := v)
    case Minute => f.(minute := v)
    case Second => f.(second := v)
  }

  /** Length of the whitespace run at the start of `s` (what greedy `\s+` takes). */
  function SpaceRun(s: string): (n: nat)
    ensures n <= |s|
    ensures AllSpace(s[..n])
    ensures n < |s| ==> !IsSpace(s[n])
  {
    if s == [] || !IsSpace(s[0]) then 0 else 1 + SpaceRun(s[1..])
  }

  /** Reads the whole of `s` against the tokens; `None` if a token fails or text remains. */
  function Match(toks: seq<Token>, s: string, f: Fields): Option<Fields>
    decreases |toks|
  {
    if toks == [] then (if s == [] then Some(f) else None)
    else
      match toks[0]
      case Lit(c) => if s != [] && s[0] == c then Match(toks[1..], s[1..], f) else None
      case Spaces =>
        var n := SpaceRun(s);
        if n == 0 then None else Match(toks[1..], s[n..], f)
      case Dir(d) =>
        match ReadDirective(d, s)
        case None => None
        case Some(rd) => Match(toks[1..], s[rd.len..], SetField(f, d, rd.value))
  }

  predicate IsLeapYear(y: nat)
  {
    (y % 4 == 0 && y % 100 != 0) || y % 400 == 0
  }

  function DaysInMonth(y: nat, m: nat): nat
  {
    if m == 2 then (if IsLeapYear(y) then 29 else 28)
    else if m == 4 || m == 6 || m == 9 || m == 11 then 30
    else 31
  }

  /** A calendar date `datetime` accepts (years 1..9999). */
  predicate ValidDate(d: Date)
  {
    1 <= d.year <= 9999 && 1 <= d.month <= 12 && 1 <= d.day <= DaysInMonth(d.year, d.month)
  }

  /** `datetime(...)` raises for day 0 of a month, day 31 of a short month, year 0 or second 60/61. */
  predicate Constructible(f: Fields)
  {
    ValidDate(Date(f.day, f.month, f.year)) && f.hour <= 23 && f.minute <= 59 && f.second <= 59
  }

  /** `datetime.strptime(s, template)` reduced to its date part, `None` where it raises. */
  function Parse(template: seq<Token>, s: string): (r: Option<Date>)
    ensures r.Some? ==> ValidDate(r.value)
  {
    match Match(template, s, Defaults)
    case None => None
    case Some(f) => if Constructible(f) then Some(Date(f.day, f.month, f.year)) else None
  }

  /** The first of `ts` that parses `s`. */
  function FirstParse(ts: seq<seq<Token>>, s: string): (r: Option<Date>)
    ensures r.Some? ==> ValidDate(r.value)
    ensures r.None? <==> forall i :: 0 <= i < |ts| ==> Parse(ts[i], s).None?
    ensures forall i :: 0 <= i < |ts| && Parse(ts[i], s).Some?
              && (forall j :: 0 <= j < i ==> Parse(ts[j], s).None?)
              ==> r == Parse(ts[i], s)
  {
    if ts == [] then None
    else
      match Parse(ts[0], s)
      case Some(dt) => Some(dt)
      case None =>
        var r := FirstParse(ts[1..], s);
        assert forall i :: 1 <= i < |ts| ==> ts[i] == ts[1..][i - 1];
        r
  }

  function Pad2(n: nat): (r: string)
    requires n < 100
    ensures |r| == 2 && IsAllDigits(r)
  {
    [DigitChar(n / 10), DigitChar(n % 10)]
  }

  function Pad4(n: nat): (r: string)
    requires n < 10000
    ensures |r| == 4 && IsAllDigits(r)
  {
    [DigitChar(n / 1000), DigitChar(n / 100 % 10), DigitChar(n / 10 % 10), DigitChar(n % 10)]
  }

  /** `strftime("%d/%m/%Y")`. */
  function DateText(d: Date): (r: string)
    requires ValidDate(d)
    ensures IsDdMmYyyy(r)
  {
    Pad2(d.day) + "/" + Pad2(d.month) + "/" + Pad4(d.year)
  }

  /** The shape `DD/MM/YYYY`. */
  predicate IsDdMmYyyy(r: string)
  {
    |r| == 10 && r[2] == '/' && r[5] == '/'
    && IsDigit(r[0]) && IsDigit(r[1]) && IsDigit(r[3]) && IsDigit(r[4])
    && IsAllDigits(r[6..])
  }

  /** Strip, then every `,` and every `T` becomes a space and every `Z` is deleted. */
  function Preprocess(dateLike: string): (s: string)
    ensures ',' !in s && 'T' !in s && 'Z' !in s
  {
    var commas := ReplaceChar(Strip(dateLike), ',', ' ');
    var blanks := ReplaceChar(commas, 'T', ' ');
    RemoveChar(blanks, 'Z')
  }

  /** The last resort: the string is exactly four digits. */
  function BareYear(s: string): (r: string)
    ensures r == [] || IsDdMmYyyy(r)
  {
    if |s| == 4 && IsAllDigits(s) then
      var r := "01/01/" + s;
      assert r[6..] == s;
      r
    else []
  }

  /** The templates in order, then `%d/%m/%Y`, then a bare four-digit string. */
  function Normalise(s: string): (r: string)
    ensures r == [] || IsDdMmYyyy(r)
  {
    match FirstParse(Templates, s)
    case Some(dt) => DateText(dt)
    case None =>
      match Parse(SlashDate, s)
      case Some(dt) => DateText(dt)
      case None => BareYear(s)
  }

  /** `ddmmyyyy`: a free-form date as `DD/MM/YYYY`, or "" when nothing parses. */
  function DdMmYyyy(dateLike: string): (r: string)
    ensures dateLike == [] ==> r == []
    ensures r == [] || IsDdMmYyyy(r)
  {
    if dateLike == [] then [] else Normalise(Preprocess(dateLike))
  }
}

/** What `ddmmyyyy` does with the date shapes the collectors meet, and the step-by-step
    template readings those facts rest on. */
module DateProofs {
  import opened Strings
  import opened Wrappers
  import opened Dates

  // ----- Reading a template token by token -----

  /** Reading one token off the front of the text, for the step-by-step proofs below. */
  lemma StepLit(toks: seq<Token>, c: char, rest: string, f: Fields)
    requires toks != [] && toks[0] == Lit(c)
    ensures Match(toks, [c] + rest, f) == Match(toks[1..], rest, f)
  {
    assert ([c] + rest)[1..] == rest;
  }

  lemma StepSpaces(toks: seq<Token>, w: string, rest: string, f: Fields)
    requires toks != [] && toks[0] == Spaces
    requires w != [] && AllSpace(w) && (rest == [] || !IsSpace(rest[0]))
    ensures Match(toks, w + rest, f) == Match(toks[1..], rest, f)
  {
    SpaceRunOf(w, rest);
    assert (w + rest)[|w|..] == rest;
  }

  lemma {:induction false} SpaceRunOf(w: string, rest: string)
    requires AllSpace(w) && (rest == [] || !IsSpace(rest[0]))
    ensures SpaceRun(w + rest) == |w|
  {
    if w != [] {
      assert (w + rest)[1..] == w[1..] + rest;
      SpaceRunOf(w[1..], rest);
    } else {
      assert w + rest == rest;
    }
  }

  lemma StepDir(toks: seq<Token>, d: Directive, x: string, rest: string, f: Fields, v: nat)
    requires toks != [] && toks[0] == Dir(d)
    requires ReadDirective(d, x + rest) == Some(Read(v, |x|))
    ensures Match(toks, x + rest, f) == Match(toks[1..], rest, SetField(f, d, v))
  {
    assert (x + rest)[|x|..] == rest;
  }

  lemma FourDigits(y: nat)
    requires y < 10000
    ensures y / 1000 * 1000 + y / 100 % 10 * 100 + y / 10 % 10 * 10 + y % 10 == y
  {
    var q1, q2, q3 := y / 10, y / 100, y / 1000;
    assert y == q1 * 10 + y % 10;
    assert q2 == q1 / 10;
    assert q1 == q2 * 10 + q1 % 10;
    assert q3 == q2 / 10;
    assert q2 == q3 * 10 + q2 % 10;
  }

  lemma ReadYearPadded(y: nat, rest: string)
    requires y < 10000
    ensures ReadYear(Pad4(y) + rest) == Some(Read(y, 4))
  {
    var s := Pad4(y) + rest;
    assert D(s[0]) == y / 1000 && D(s[1]) == y / 100 % 10;
    assert D(s[2]) == y / 10 % 10 && D(s[3]) == y % 10;
    FourDigits(y);
  }

  lemma ReadDayPadded(day: nat, rest: string)
    requires 1 <= day <= 31
    ensures ReadDay(Pad2(day) + rest) == Some(Read(day, 2))
  {
  }

  lemma ReadMonthPadded(m: nat, rest: string)
    requires 1 <= m <= 12
    ensures ReadMonthNumber(Pad2(m) + rest) == Some(Read(m, 2))
  {
  }

  lemma ReadHourPadded(h: nat, rest: string)
    requires h <= 23
    ensures ReadHour(Pad2(h) + rest) == Some(Read(h, 2))
  {
  }

  lemma ReadMinutePadded(m: nat, rest: string)
    requires m <= 59
    ensures ReadMinute(Pad2(m) + rest) == Some(Read(m, 2))
  {
  }

  lemma ReadSecondPadded(sec: nat, rest: string)
    requires sec <= 59
    ensures ReadSecond(Pad2(sec) + rest) == Some(Read(sec, 2))
  {
  }

  lemma SlashTextParses(d: Date)
    requires ValidDate(d)
    ensures Parse(SlashDate, DateText(d)) == Some(d)
  {
    SlashMatches(d);
    assert Constructible(Defaults.(day := d.day, month := d.month, year := d.year));
  }

  lemma SlashMatches(d: Date)
    requires ValidDate(d)
    ensures Match(SlashDate, DateText(d), Defaults)
         == Some(Defaults.(day := d.day, month := d.month, year := d.year))
  {
    var rest := Pad2(d.month) + "/" + Pad4(d.year);
    var s1 := "/" + rest;
    assert DateText(d) == Pad2(d.day) + s1;
    assert s1[1..] == rest;
    SlashDayStep(d.day, s1);
    SlashMonthYearSteps(d.month, d.year, Defaults.(day := d.day));
  }

  lemma SlashDayStep(day: nat, s1: string)
    requires 1 <= day <= 31
    requires s1 != [] && s1[0] == '/'
    ensures Match(SlashDate, Pad2(day) + s1, Defaults) == Match(SlashDate[2..], s1[1..], Defaults.(day := day))
  {
    ReadDayPadded(day, s1);
    StepDir(SlashDate, Day, Pad2(day), s1, Defaults, day);
    assert s1 == ['/'] + s1[1..];
    StepLit(SlashDate[1..], '/', s1[1..], Defaults.(day := day));
    assert SlashDate[1..][1..] == SlashDate[2..];
  }

  lemma SlashMonthYearSteps(m: nat, y: nat, f: Fields)
    requires 1 <= m <= 12 && y < 10000
    ensures Match(SlashDate[2..], (Pad2(m) + "/" + Pad4(y)), f) == Some(f.(month := m, year := y))
  {
    var T := SlashDate[2..];
    var s3 := "/" + Pad4(y);
    assert Pad2(m) + "/" + Pad4(y) == Pad2(m) + s3;
    ReadMonthPadded(m, s3);
    StepDir(T, Month, Pad2(m), s3, f, m);
    StepLit(T[1..], '/', Pad4(y), f.(month := m));
    ReadYearPadded(y, []);
    assert Pad4(y) + [] == Pad4(y);
    StepDir(T[2..], Year, Pad4(y), [], f.(month := m), y);
    assert T[2..][1..] == [];
  }

  // ----- Why a template fails -----

  predicate IsLowerLetter(c: char) { 'a' <= c <= 'z' }

  predicate IsLetter(c: char) { IsLowerLetter(c) || IsUpper(c) }

  predicate NamesStartWithLetters(names: seq<string>)
  {
    forall j :: 0 <= j < |names| ==> names[j] != [] && IsLowerLetter(names[j][0])
  }

  lemma NameListsStartWithLetters()
    ensures NamesStartWithLetters(Abbreviations) && NamesStartWithLetters(FullNames)
  {
  }

  lemma {:induction false} MonthNameNeedsLetter(s: string, names: seq<string>, k: nat)
    requires k <= |names| && NamesStartWithLetters(names)
    requires s == [] || !IsLetter(s[0])
    ensures ReadMonthName(s, names, k) == None
    decreases |names| - k
  {
    if k < |names| {
      if |names[k]| <= |s| {
        assert Lower(s[..|names[k]|])[0] == LowerChar(s[0]);
      }
      MonthNameNeedsLetter(s, names, k + 1);
    }
  }

  /** Every template of the list fails on `s`, template by template. */
  predicate NoTemplateParses(s: string)
  {
    && Parse(IsoDate, s).None? && Parse(IsoSeconds, s).None? && Parse(IsoMinutes, s).None?
    && Parse(IsoHours, s).None? && Parse(DayAbbrYear, s).None? && Parse(AbbrDayYear, s).None?
    && Parse(DayFullYear, s).None? && Parse(FullDayYear, s).None? && Parse(YearAbbrDay, s).None?
    && Parse(YearFullDay, s).None? && Parse(YearOnly, s).None?
  }

  lemma ListFailsWhenEachFails(s: string)
    requires NoTemplateParses(s)
    ensures FirstParse(Templates, s) == None
  {
    TemplateEntries();
    forall i | 0 <= i < |Templates| ensures Parse(Templates[i], s).None? {
      if i < 4 {
        assert Templates[i] in {IsoDate, IsoSeconds, IsoMinutes, IsoHours};
      } else if i < 8 {
        assert Templates[i] in {DayAbbrYear, AbbrDayYear, DayFullYear, FullDayYear};
      } else {
        assert Templates[i] in {YearAbbrDay, YearFullDay, YearOnly};
      }
    }
  }

  /** The second template decides when the first fails and the second parses. */
  lemma SecondTemplateWins(ts: seq<seq<Token>>, s: string)
    requires |ts| >= 2 && Parse(ts[0], s).None? && Parse(ts[1], s).Some?
    ensures FirstParse(ts, s) == Parse(ts[1], s)
  {
    assert ts[1..][0] == ts[1];
  }

  /** The list, entry by entry. */
  lemma TemplateEntries()
    ensures |Templates| == 11
    ensures Templates[0] == IsoDate && Templates[1] == IsoSeconds && Templates[2] == IsoMinutes
    ensures Templates[3] == IsoHours && Templates[4] == DayAbbrYear && Templates[5] == AbbrDayYear
    ensures Templates[6] == DayFullYear && Templates[7] == FullDayYear && Templates[8] == YearAbbrDay
    ensures Templates[9] == YearFullDay && Templates[10] == YearOnly
  {
  }

  lemma ListDecides(s: string, d: Date)
    requires FirstParse(Templates, s) == Some(d)
    ensures Normalise(s) == DateText(d)
  {
  }

  /** Text without surrounding space, commas, `T` or `Z` reaches the templates unchanged. */
  lemma PreprocessPlain(t: string)
    requires IsStripped(t) && ',' !in t && 'T' !in t && 'Z' !in t
    ensures Preprocess(t) == t
  {
    ReplaceCharAbsent(t, ',', ' ');
    ReplaceCharAbsent(t, 'T', ' ');
  }

  lemma DigitsArePlain(s: string)
    requires IsAllDigits(s)
    ensures IsStripped(s) && ',' !in s && 'T' !in s && 'Z' !in s
  {
    if s != [] {
      assert IsDigit(s[0]) && IsDigit(s[|s| - 1]);
    }
    forall i | 0 <= i < |s| ensures s[i] != ',' && s[i] != 'T' && s[i] != 'Z' {
      assert IsDigit(s[i]);
    }
  }

  lemma NormaliseAfterPreprocess(s: string, t: string)
    requires s != [] && Preprocess(s) == t
    ensures DdMmYyyy(s) == Normalise(t)
  {
  }

  lemma YearThenLitFails(toks: seq<Token>, c: char, s: string, f: Fields)
    requires |toks| >= 2 && toks[0] == Dir(Year) && toks[1] == Lit(c)
    requires ReadYear(s).Some? ==> |s| == 4 || s[4] != c
    ensures Match(toks, s, f) == None
  {
    match ReadYear(s)
    case None =>
    case Some(rd) =>
      assert Match(toks, s, f) == Match(toks[1..], s[4..], SetField(f, Year, rd.value));
  }

  lemma YearThenSpacesFails(toks: seq<Token>, s: string, f: Fields)
    requires |toks| >= 2 && toks[0] == Dir(Year) && toks[1] == Spaces
    requires ReadYear(s).Some? ==> |s| == 4 || !IsSpace(s[4])
    ensures Match(toks, s, f) == None
  {
    match ReadYear(s)
    case None =>
    case Some(rd) =>
      assert Match(toks, s, f) == Match(toks[1..], s[4..], SetField(f, Year, rd.value));
  }

  lemma YearOnlyNeedsFourChars(s: string, f: Fields)
    requires |s| != 4
    ensures Match(YearOnly, s, f) == None
  {
    match ReadYear(s)
    case None =>
    case Some(rd) =>
      assert Match(YearOnly, s, f) == Match(YearOnly[1..], s[4..], SetField(f, Year, rd.value));
  }

  lemma YearFirstFails(toks: seq<Token>, s: string, f: Fields)
    requires toks != [] && toks[0] == Dir(Year) && ReadYear(s) == None
    ensures Match(toks, s, f) == None
  {
  }

  lemma NameFirstFails(toks: seq<Token>, s: string, f: Fields)
    requires toks != [] && (toks[0] == Dir(MonthAbbr) || toks[0] == Dir(MonthFull))
    requires s == [] || !IsLetter(s[0])
    ensures Match(toks, s, f) == None
  {
    NameListsStartWithLetters();
    MonthNameNeedsLetter(s, Abbreviations, 0);
    MonthNameNeedsLetter(s, FullNames, 0);
  }

  lemma DayThenSpacesFails(toks: seq<Token>, s: string, f: Fields)
    requires |toks| >= 2 && toks[0] == Dir(Day) && toks[1] == Spaces
    requires ReadDay(s).Some? ==> ReadDay(s).value.len < |s| && !IsSpace(s[ReadDay(s).value.len])
    ensures Match(toks, s, f) == None
  {
    match ReadDay(s)
    case None =>
    case Some(rd) =>
      assert Match(toks, s, f) == Match(toks[1..], s[rd.len..], SetField(f, Day, rd.value));
  }

  // ----- Day/month/year texts -----

  lemma DateTextChars(d: Date)
    requires ValidDate(d)
    ensures var t := DateText(d);
      IsStripped(t) && ',' !in t && 'T' !in t && 'Z' !in t
      && (forall i :: 0 <= i < |t| ==> IsDigit(t[i]) || t[i] == '/')
  {
  }

  /** No template of the list reads a `DD/MM/YYYY` text: each needs a year, a blank or a letter first. */
  lemma TemplatesRejectDateText(d: Date)
    requires ValidDate(d)
    ensures NoTemplateParses(DateText(d))
  {
    var t := DateText(d);
    assert ReadYear(t) == None;
    assert ReadDay(t) == Some(Read(d.day, 2)) by {
      ReadDayPadded(d.day, "/" + Pad2(d.month) + "/" + Pad4(d.year));
    }
    YearFirstFails(IsoDate, t, Defaults);
    YearFirstFails(IsoSeconds, t, Defaults);
    YearFirstFails(IsoMinutes, t, Defaults);
    YearFirstFails(IsoHours, t, Defaults);
    DayThenSpacesFails(DayAbbrYear, t, Defaults);
    NameFirstFails(AbbrDayYear, t, Defaults);
    DayThenSpacesFails(DayFullYear, t, Defaults);
    NameFirstFails(FullDayYear, t, Defaults);
    YearFirstFails(YearAbbrDay, t, Defaults);
    YearFirstFails(YearFullDay, t, Defaults);
    YearFirstFails(YearOnly, t, Defaults);
  }

  /** When no template of the list parses, `%d/%m/%Y` decides. */
  lemma NormaliseAfterList(s: string, d: Date)
    requires NoTemplateParses(s)
    requires Parse(SlashDate, s) == Some(d)
    ensures Normalise(s) == DateText(d)
  {
    ListFailsWhenEachFails(s);
  }

  /** A date already in canonical form comes back unchanged: the output is a fixed point. */
  lemma CanonicalIsFixedPoint(d: Date)
    requires ValidDate(d)
    ensures DdMmYyyy(DateText(d)) == DateText(d)
  {
    var t := DateText(d);
    DateTextChars(d);
    PreprocessPlain(t);
    TemplatesRejectDateText(d);
    SlashTextParses(d);
    NormaliseAfterList(t, d);
  }

  /** A day or month number as `strftime` would not write it: without the leading zero. */
  function Short(n: nat): (r: string)
    requires 1 <= n < 100
    ensures 1 <= |r| <= 2 && IsAllDigits(r)
  {
    if n < 10 then [DigitChar(n)] else Pad2(n)
  }

  /** `D/M/YYYY`: day and month without padding, as people write them. */
  function UnpaddedText(d: Date): string
    requires ValidDate(d)
  {
    Short(d.day) + ("/" + (Short(d.month) + ("/" + Pad4(d.year))))
  }

  lemma ReadDayShort(day: nat, rest: string)
    requires 1 <= day <= 31 && rest != [] && rest[0] == '/'
    ensures ReadDay(Short(day) + rest) == Some(Read(day, |Short(day)|))
  {
    if day >= 10 {
      ReadDayPadded(day, rest);
    } else {
      var s := Short(day) + rest;
      assert s[0] == DigitChar(day) && s[1] == '/';
    }
  }

  lemma ReadMonthShort(m: nat, rest: string)
    requires 1 <= m <= 12 && rest != [] && rest[0] == '/'
    ensures ReadMonthNumber(Short(m) + rest) == Some(Read(m, |Short(m)|))
  {
    if m >= 10 {
      ReadMonthPadded(m, rest);
    } else {
      var s := Short(m) + rest;
      assert s[0] == DigitChar(m) && s[1] == '/';
    }
  }

  /** `%d/%m/%Y` reads the un-padded text as the date it names. */
  lemma UnpaddedMatches(d: Date)
    requires ValidDate(d)
    ensures Match(SlashDate, UnpaddedText(d), Defaults)
         == Some(Defaults.(day := d.day, month := d.month, year := d.year))
  {
    var s3 := "/" + Pad4(d.year);
    var s2 := Short(d.month) + s3;
    var s1 := "/" + s2;
    var f1 := Defaults.(day := d.day);
    var f2 := f1.(month := d.month);
    ReadDayShort(d.day, s1);
    StepDir(SlashDate, Day, Short(d.day), s1, Defaults, d.day);
    assert s1 == ['/'] + s2;
    StepLit(SlashDate[1..], '/', s2, f1);
    assert SlashDate[1..][1..] == SlashDate[2..];
    ReadMonthShort(d.month, s3);
    StepDir(SlashDate[2..], Month, Short(d.month), s3, f1, d.month);
    assert SlashDate[2..][1..] == SlashDate[3..];
    StepLit(SlashDate[3..], '/', Pad4(d.year), f2);
    assert SlashDate[3..][1..] == SlashDate[4..];
    ReadYearPadded(d.year, []);
    assert Pad4(d.year) + [] == Pad4(d.year);
    StepDir(SlashDate[4..], Year, Pad4(d.year), [], f2, d.year);
    assert SlashDate[4..][1..] == [];
  }

  lemma UnpaddedTextChars(d: Date)
    requires ValidDate(d)
    ensures var t := UnpaddedText(d);
      IsStripped(t) && ',' !in t && 'T' !in t && 'Z' !in t
      && t[0] != ' ' && IsDigit(t[0]) && t[|Short(d.day)|] == '/'
      && (t[1] == '/' || t[2] == '/')
  {
    var t := UnpaddedText(d);
    var a, b, c := Short(d.day), Short(d.month), Pad4(d.year);
    assert forall i :: 0 <= i < |a| ==> t[i] == a[i];
    assert t[|a|] == '/';
    assert forall i :: 0 <= i < |t| ==> IsDigit(t[i]) || t[i] == '/' by {
      assert t == a + ['/'] + b + ['/'] + c;
    }
    assert IsDigit(t[|t| - 1]) by { assert t[|t| - 1] == c[3]; }
  }

  /** No template of the list reads a `D/M/YYYY` text either. */
  lemma TemplatesRejectUnpadded(d: Date)
    requires ValidDate(d)
    ensures NoTemplateParses(UnpaddedText(d))
  {
    var t := UnpaddedText(d);
    UnpaddedTextChars(d);
    assert ReadYear(t) == None;
    assert ReadDay(t) == Some(Read(d.day, |Short(d.day)|)) by {
      ReadDayShort(d.day, "/" + (Short(d.month) + ("/" + Pad4(d.year))));
    }
    YearFirstFails(IsoDate, t, Defaults);
    YearFirstFails(IsoSeconds, t, Defaults);
    YearFirstFails(IsoMinutes, t, Defaults);
    YearFirstFails(IsoHours, t, Defaults);
    DayThenSpacesFails(DayAbbrYear, t, Defaults);
    NameFirstFails(AbbrDayYear, t, Defaults);
    DayThenSpacesFails(DayFullYear, t, Defaults);
    NameFirstFails(FullDayYear, t, Defaults);
    YearFirstFails(YearAbbrDay, t, Defaults);
    YearFirstFails(YearFullDay, t, Defaults);
    YearFirstFails(YearOnly, t, Defaults);
  }

  /** `1/2/2024` comes back as `01/02/2024`: the same date, padded. */
  lemma UnpaddedComesBackPadded(d: Date)
    requires ValidDate(d)
    ensures DdMmYyyy(UnpaddedText(d)) == DateText(d)
  {
    var t := UnpaddedText(d);
    UnpaddedTextChars(d);
    PreprocessPlain(t);
    TemplatesRejectUnpadded(d);
    UnpaddedParses(d);
    NormaliseAfterList(t, d);
  }

  lemma UnpaddedParses(d: Date)
    requires ValidDate(d)
    ensures Parse(SlashDate, UnpaddedText(d)) == Some(d)
  {
    UnpaddedMatches(d);
    assert Constructible(Defaults.(day := d.day, month := d.month, year := d.year));
  }

  // ----- ISO 8601 timestamps as the arXiv feed writes them (`2024-01-15T18:00:00Z`) -----

  datatype Time = Time(hour: nat, minute: nat, second: nat)

  predicate ValidTime(t: Time) { t.hour <= 23 && t.minute <= 59 && t.second <= 59 }

  /** `YYYY-MM-DD`. */
  function IsoDateText(d: Date): string
    requires ValidDate(d)
  {
    Pad4(d.year) + ("-" + (Pad2(d.month) + ("-" + Pad2(d.day))))
  }

  /** `HH:MM:SS`. */
  function TimeText(t: Time): string
    requires ValidTime(t)
  {
    Pad2(t.hour) + (":" + (Pad2(t.minute) + (":" + Pad2(t.second))))
  }

  /** `YYYY-MM-DDTHH:MM:SSZ`. */
  function Timestamp(d: Date, t: Time): string
    requires ValidDate(d) && ValidTime(t)
  {
    IsoDateText(d) + "T" + TimeText(t) + "Z"
  }

  lemma IsoPieces(d: Date, t: Time)
    requires ValidDate(d) && ValidTime(t)
    ensures forall i :: 0 <= i < |IsoDateText(d)| ==> IsDigit(IsoDateText(d)[i]) || IsoDateText(d)[i] == '-'
    ensures forall i :: 0 <= i < |TimeText(t)| ==> IsDigit(TimeText(t)[i]) || TimeText(t)[i] == ':'
    ensures |IsoDateText(d)| == 10 && |TimeText(t)| == 8
  {
  }

  /** The separators are rewritten: `T` becomes a blank and the trailing `Z` goes. */
  lemma PreprocessTimestamp(d: Date, t: Time)
    requires ValidDate(d) && ValidTime(t)
    ensures Preprocess(Timestamp(d, t)) == IsoDateText(d) + (" " + TimeText(t))
  {
    var a, b := IsoDateText(d), TimeText(t);
    IsoPieces(d, t);
    assert a[0] != ' ' && ',' !in a && 'T' !in a && 'Z' !in a by {
      assert IsDigit(a[0]);
      forall i | 0 <= i < |a| ensures a[i] != ',' && a[i] != 'T' && a[i] != 'Z' {
        assert IsDigit(a[i]) || a[i] == '-';
      }
    }
    assert ',' !in b && 'T' !in b && 'Z' !in b by {
      forall i | 0 <= i < |b| ensures b[i] != ',' && b[i] != 'T' && b[i] != 'Z' {
        assert IsDigit(b[i]) || b[i] == ':';
      }
    }
    assert !IsSpace(a[0]) by { assert IsDigit(a[0]); }
    PreprocessSeparators(a, b);
  }

  /** `a T b Z` with no commas, `T` or `Z` in `a` and `b` preprocesses to `a b`. */
  lemma PreprocessSeparators(a: string, b: string)
    requires a != [] && !IsSpace(a[0])
    requires ',' !in a && 'T' !in a && 'Z' !in a
    requires ',' !in b && 'T' !in b && 'Z' !in b
    ensures Preprocess(a + "T" + b + "Z") == a + (" " + b)
  {
    var s := a + "T" + b + "Z";
    SeparatorsKeepStrip(a, b);
    SeparatorTBecomesSpace(a, b);
    SeparatorZDropped(a, b);
  }

  lemma SeparatorsKeepStrip(a: string, b: string)
    requires a != [] && !IsSpace(a[0])
    requires ',' !in a && ',' !in b
    ensures ReplaceChar(Strip(a + "T" + b + "Z"), ',', ' ') == a + "T" + b + "Z"
  {
    var s := a + "T" + b + "Z";
    assert IsStripped(s) by { assert s[0] == a[0] && s[|s| - 1] == 'Z'; }
    assert ',' !in s;
    assert ReplaceChar(s, ',', ' ') == s;
  }

  lemma SeparatorTBecomesSpace(a: string, b: string)
    requires 'T' !in a && 'T' !in b
    ensures ReplaceChar(a + "T" + b + "Z", 'T', ' ') == a + " " + b + "Z"
  {
    ReplaceCharConcat(a, "T", 'T', ' ');
    ReplaceCharConcat(a + "T", b, 'T', ' ');
    ReplaceCharConcat(a + "T" + b, "Z", 'T', ' ');
    assert ReplaceChar(a, 'T', ' ') == a;
    assert ReplaceChar(b, 'T', ' ') == b;
  }

  lemma SeparatorZDropped(a: string, b: string)
    requires 'Z' !in a && 'Z' !in b
    ensures RemoveChar(a + " " + b + "Z", 'Z') == a + (" " + b)
  {
    var m := a + (" " + b);
    assert a + " " + b + "Z" == m + ['Z'];
    RemoveTrailing(m, 'Z');
  }

  /** `%Y-%m-%d` reads the date and then stops short of the time: unconverted text remains. */
  lemma DateOnlyRejectsTimestamp(d: Date, t: Time)
    requires ValidDate(d) && ValidTime(t)
    ensures Parse(IsoDate, IsoDateText(d) + (" " + TimeText(t))).None?
  {
    var r := " " + TimeText(t);
    DatePartReads(IsoDate, d, r, Defaults);
    assert IsoDate[5..] == [];
  }

  /** The five date tokens shared by the ISO templates read `YYYY-MM-DD`. */
  lemma DatePartReads(toks: seq<Token>, d: Date, r: string, f0: Fields)
    requires ValidDate(d)
    requires |toks| >= 5 && toks[0] == Dir(Year) && toks[1] == Lit('-')
    requires toks[2] == Dir(Month) && toks[3] == Lit('-') && toks[4] == Dir(Day)
    requires r == [] || !IsDigit(r[0])
    ensures Match(toks, IsoDateText(d) + r, f0)
         == Match(toks[5..], r, f0.(year := d.year, month := d.month, day := d.day))
  {
    var r1 := Pad2(d.month) + ("-" + (Pad2(d.day) + r));
    IsoDateThen(d, r);
    YearThenDash(toks, d.year, r1, f0);
    var t2 := toks[2..];
    assert t2[0] == Dir(Month) && t2[1] == Lit('-') && t2[2] == Dir(Day);
    var f1 := f0.(year := d.year);
    MonthDashDay(t2, d.month, d.day, r, f1);
    assert f1.(month := d.month, day := d.day) == f0.(year := d.year, month := d.month, day := d.day);
    assert t2[3..] == toks[5..];
  }

  lemma IsoDateThen(d: Date, r: string)
    requires ValidDate(d)
    ensures IsoDateText(d) + r == Pad4(d.year) + ("-" + (Pad2(d.month) + ("-" + (Pad2(d.day) + r))))
  {
  }

  lemma MonthDashDay(toks: seq<Token>, m: nat, day: nat, r: string, f: Fields)
    requires 1 <= m <= 12 && 1 <= day <= 31
    requires |toks| >= 3 && toks[0] == Dir(Month) && toks[1] == Lit('-') && toks[2] == Dir(Day)
    requires r == [] || !IsDigit(r[0])
    ensures Match(toks, Pad2(m) + ("-" + (Pad2(day) + r)), f)
         == Match(toks[3..], r, f.(month := m, day := day))
  {
    MonthThenDash(toks, m, Pad2(day) + r, f);
    ReadDayPadded(day, r);
    StepDir(toks[2..], Day, Pad2(day), r, f.(month := m), day);
    assert toks[2..][1..] == toks[3..];
  }

  lemma YearThenDash(toks: seq<Token>, y: nat, rest: string, f: Fields)
    requires y < 10000
    requires |toks| >= 2 && toks[0] == Dir(Year) && toks[1] == Lit('-')
    ensures Match(toks, Pad4(y) + ("-" + rest), f) == Match(toks[2..], rest, f.(year := y))
  {
    ReadYearPadded(y, "-" + rest);
    StepDir(toks, Year, Pad4(y), "-" + rest, f, y);
    StepLit(toks[1..], '-', rest, f.(year := y));
    assert toks[1..][1..] == toks[2..];
  }

  lemma MonthThenDash(toks: seq<Token>, m: nat, rest: string, f: Fields)
    requires 1 <= m <= 12
    requires |toks| >= 2 && toks[0] == Dir(Month) && toks[1] == Lit('-')
    ensures Match(toks, Pad2(m) + ("-" + rest), f) == Match(toks[2..], rest, f.(month := m))
  {
    ReadMonthPadded(m, "-" + rest);
    StepDir(toks, Month, Pad2(m), "-" + rest, f, m);
    StepLit(toks[1..], '-', rest, f.(month := m));
    assert toks[1..][1..] == toks[2..];
  }

  lemma SecondsReadHour(t: Time, f3: Fields)
    requires ValidTime(t)
    ensures Match(IsoSeconds[5..], " " + TimeText(t), f3)
         == Match(IsoSeconds[8..], Pad2(t.minute) + (":" + Pad2(t.second)), f3.(hour := t.hour))
  {
    var T := IsoSeconds[5..];
    var r8 := Pad2(t.minute) + (":" + Pad2(t.second));
    var r7 := ":" + r8;
    StepSpaces(T, " ", TimeText(t), f3);
    ReadHourPadded(t.hour, r7);
    StepDir(T[1..], Hour, Pad2(t.hour), r7, f3, t.hour);
    StepLit(T[2..], ':', r8, f3.(hour := t.hour));
    assert T[3..] == IsoSeconds[8..];
  }

  lemma SecondsReadMinuteSecond(t: Time, f4: Fields)
    requires ValidTime(t)
    ensures Match(IsoSeconds[8..], Pad2(t.minute) + (":" + Pad2(t.second)), f4)
         == Some(f4.(minute := t.minute, second := t.second))
  {
    var T := IsoSeconds[8..];
    var r9 := ":" + Pad2(t.second);
    var f5 := f4.(minute := t.minute);
    ReadMinutePadded(t.minute, r9);
    StepDir(T, Minute, Pad2(t.minute), r9, f4, t.minute);
    StepLit(T[1..], ':', Pad2(t.second), f5);
    ReadSecondPadded(t.second, []);
    assert Pad2(t.second) + [] == Pad2(t.second);
    StepDir(T[2..], Second, Pad2(t.second), [], f5, t.second);
    assert T[3..] == [];
  }

  /** `%Y-%m-%d %H:%M:%S` reads the whole preprocessed timestamp. */
  lemma SecondsReadTimestamp(d: Date, t: Time)
    requires ValidDate(d) && ValidTime(t)
    ensures Parse(IsoSeconds, IsoDateText(d) + (" " + TimeText(t))) == Some(d)
  {
    DatePartReads(IsoSeconds, d, " " + TimeText(t), Defaults);
    var f3 := Defaults.(year := d.year, month := d.month, day := d.day);
    SecondsReadHour(t, f3);
    SecondsReadMinuteSecond(t, f3.(hour := t.hour));
  }

  /** `2024-01-15T18:00:00Z` becomes `15/01/2024`: the time of day is discarded. */
  lemma TimestampNormalises(d: Date, t: Time)
    requires ValidDate(d) && ValidTime(t)
    ensures DdMmYyyy(Timestamp(d, t)) == DateText(d)
  {
    var s := IsoDateText(d) + (" " + TimeText(t));
    PreprocessTimestamp(d, t);
    DateOnlyRejectsTimestamp(d, t);
    SecondsReadTimestamp(d, t);
    TemplateEntries();
    SecondTemplateWins(Templates, s);
    ListDecides(s, d);
  }

  // ----- A bare year: `2024` becomes `01/01/2024` -----

  lemma DigitsOfFour(s: string)
    requires |s| == 4 && IsAllDigits(s)
    ensures ReadYear(s).Some? && Pad4(ReadYear(s).value.value) == s
  {
    var y := ReadYear(s).value.value;
    var a, b, c, d := D(s[0]), D(s[1]), D(s[2]), D(s[3]);
    assert y == a * 1000 + b * 100 + c * 10 + d;
    assert y / 10 == a * 100 + b * 10 + c && y % 10 == d;
    assert y / 100 == a * 10 + b && y / 10 % 10 == c;
    assert y / 1000 == a && y / 100 % 10 == b;
    assert DigitChar(a) == s[0] && DigitChar(b) == s[1] && DigitChar(c) == s[2] && DigitChar(d) == s[3];
  }

  /** Only `%Y` can read four digits; every other template of the list fails on them. */
  lemma OthersRejectFourDigits(s: string)
    requires |s| == 4 && IsAllDigits(s)
    ensures forall i :: 0 <= i < 10 ==> Parse(Templates[i], s).None?
  {
    TemplateEntries();
    YearThenLitFails(IsoDate, '-', s, Defaults);
    YearThenLitFails(IsoSeconds, '-', s, Defaults);
    YearThenLitFails(IsoMinutes, '-', s, Defaults);
    YearThenLitFails(IsoHours, '-', s, Defaults);
    DayThenSpacesFails(DayAbbrYear, s, Defaults);
    NameFirstFails(AbbrDayYear, s, Defaults);
    DayThenSpacesFails(DayFullYear, s, Defaults);
    NameFirstFails(FullDayYear, s, Defaults);
    YearThenSpacesFails(YearAbbrDay, s, Defaults);
    YearThenSpacesFails(YearFullDay, s, Defaults);
  }

  lemma YearOnlyReads(s: string)
    requires |s| == 4 && IsAllDigits(s)
    ensures var y := ReadYear(s).value.value;
      Parse(YearOnly, s) == if y >= 1 then Some(Date(1, 1, y)) else None
  {
    var y := ReadYear(s).value.value;
    assert s[4..] == [];
    assert Match(YearOnly, s, Defaults) == Some(Defaults.(year := y));
  }

  lemma {:induction false} LastTemplateDecides(s: string)
    requires forall i :: 0 <= i < 10 ==> Parse(Templates[i], s).None?
    ensures FirstParse(Templates, s) == Parse(Templates[10], s)
  {
    TemplateEntries();
    if Parse(Templates[10], s).None? {
      assert forall i :: 0 <= i < |Templates| ==> Parse(Templates[i], s).None?;
    }
  }

  lemma NormaliseYearZero(s: string)
    requires |s| == 4 && IsAllDigits(s) && ReadYear(s).value.value == 0
    ensures Normalise(s) == "01/01/" + s
  {
    OthersRejectFourDigits(s);
    YearOnlyReads(s);
    LastTemplateDecides(s);
    TemplateEntries();
    assert ReadDay(s) == None;
    assert Parse(SlashDate, s) == None;
  }

  lemma NormalisePositiveYear(s: string)
    requires |s| == 4 && IsAllDigits(s) && ReadYear(s).value.value >= 1
    ensures Normalise(s) == "01/01/" + s
  {
    DigitsOfFour(s);
    OthersRejectFourDigits(s);
    YearOnlyReads(s);
    LastTemplateDecides(s);
    TemplateEntries();
    var y := ReadYear(s).value.value;
    assert FirstParse(Templates, s) == Some(Date(1, 1, y));
    assert DateText(Date(1, 1, y)) == "01/01/" + s;
  }

  /** Digits pass the preprocessing unchanged. */
  lemma DigitsNeedNoPreprocessing(s: string)
    requires IsAllDigits(s)
    ensures Preprocess(s) == s
  {
    DigitsArePlain(s);
    PreprocessPlain(s);
  }

  /** Any four ASCII digits `YYYY` become `01/01/YYYY`; for `0000`, which no template
      accepts because `datetime` has no year 0, through the final four-digit check. */
  lemma FourDigitsNormalise(s: string)
    requires |s| == 4 && IsAllDigits(s)
    ensures Normalise(s) == "01/01/" + s
  {
    DigitsOfFour(s);
    if ReadYear(s).value.value == 0 {
      NormaliseYearZero(s);
    } else {
      NormalisePositiveYear(s);
    }
  }

  // ----- The bare-year fallback, through `ddmmyyyy` -----

  lemma BareYearNormalises(s: string)
    requires |s| == 4 && IsAllDigits(s)
    ensures DdMmYyyy(s) == "01/01/" + s
  {
    DigitsSkipPreprocessing(s);
    FourDigitsNormalise(s);
  }

  lemma DigitsSkipPreprocessing(s: string)
    requires s != [] && IsAllDigits(s)
    ensures DdMmYyyy(s) == Normalise(s)
  {
    DigitsNeedNoPreprocessing(s);
    NormaliseAfterPreprocess(s, s);
  }
}
