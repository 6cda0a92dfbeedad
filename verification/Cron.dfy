/**
 Cron expressions (internal/scriptrunner/cron.go): parsing the five fields and searching
 for the next minute at which a schedule fires.

 Local time is a number of nanoseconds since 1 January of year 1, in a zone whose offset
 is a whole number of minutes, so that minutes start together everywhere.
 */
module Cron {
  import opened Wrappers
  import Wire
  import opened GoText
  import opened Calendar

  datatype Step = Step(start: int, end: int, step: int)
  {
    predicate Matches(value: int)
      requires step > 0
    {
      start <= value <= end && (value - start) % step == 0
    }

    /** A step the parser lets into a field whose values run from `min` to `max`. */
    predicate Within(min: int, max: int) {
      min <= start <= end <= max && 0 < step <= MAX_INT
    }
  }

  ghost predicate AllWithin(steps: seq<Step>, min: int, max: int) {
    forall i :: 0 <= i < |steps| ==> steps[i].Within(min, max)
  }

  datatype Field = Field(min: int, max: int, steps: seq<Step>)
  {
    ghost predicate WellFormed() {
      steps != [] && AllWithin(steps, min, max)
    }

    ghost predicate Matches(value: int)
      requires WellFormed()
    {
      exists i :: 0 <= i < |steps| && steps[i].Matches(value)
    }

    method Match(value: int) returns (r: bool)
      requires WellFormed()
      ensures r == Matches(value)
    {
      for i := 0 to |steps|
        invariant forall j :: 0 <= j < i ==> !steps[j].Matches(value)
      {
        if value >= steps[i].start && value <= steps[i].end && (value - steps[i].start) % steps[i].step == 0 {
          assert steps[i].Matches(value);
          return true;
        }
      }
      return false;
    }

    predicate Restricted() {
      if |steps| != 1 then true
      else steps[0].start != min || steps[0].end != max || steps[0].step != 1
    }
  }

  // ---- parsing ----

  /** The bounds the part before a `/` stands for, before they are checked. */
  function ParseBounds(base: string, min: int, max: int): Option<(int, int)> {
    if base == "*" || base == "?" then Some((min, max))
    else match IndexOf(base, '-')
         case Some(i) =>
           var lo, hi := Atoi(base[..i]), Atoi(base[i + 1..]);
           if lo.None? || hi.None? then None else Some((lo.value, hi.value))
         case None =>
           var value := Atoi(base);
           if value.None? then None else Some((value.value, value.value))
  }

  /** The step one comma-separated part stands for. */
  function ParseStep(part: string, min: int, max: int): (r: Result<Step>)
    ensures r.Ok? ==> r.value.Within(min, max)
  {
    var slash := IndexOf(part, '/');
    var base := if slash.Some? then part[..slash.value] else part;
    var step := if slash.Some? then Atoi(part[slash.value + 1..]) else Some(1);
    if part == [] || step.None? || step.value <= 0 then Err
    else match ParseBounds(base, min, max)
         case None => Err
         case Some((lo, hi)) =>
           if lo < min || hi > max || lo > hi then Err
           else
             assert step.value <= MAX_INT;
             Ok(Step(lo, hi, step.value))
  }

  /** The steps of all parts, or an error if one of them has none. */
  function ParseSteps(parts: seq<string>, min: int, max: int): (r: Result<seq<Step>>)
    ensures r.Ok? ==> |r.value| == |parts| && AllWithin(r.value, min, max)
  {
    if parts == [] then Ok([])
    else
      var rest := ParseSteps(parts[..|parts| - 1], min, max);
      var last := ParseStep(parts[|parts| - 1], min, max);
      if rest.Err? || last.Err? then Err else Ok(rest.value + [last.value])
  }

  function FieldOf(raw: string, min: int, max: int): (r: Result<Field>)
    ensures r.Ok? ==> r.value.WellFormed() && r.value.min == min && r.value.max == max
  {
    var steps := ParseSteps(Split(raw, ','), min, max);
    if steps.Err? then Err else Ok(Field(min, max, steps.value))
  }

  lemma {:induction false} OneBadPartSpoilsAll(parts: seq<string>, min: int, max: int, i: nat)
    requires i < |parts| && ParseStep(parts[i], min, max).Err?
    ensures ParseSteps(parts, min, max).Err?
  {
    if i == |parts| - 1 {
    } else {
      OneBadPartSpoilsAll(parts[..|parts| - 1], min, max, i);
    }
  }

  lemma OneMorePart(parts: seq<string>, min: int, max: int, k: nat)
    requires k < |parts|
    ensures ParseSteps(parts[..k + 1], min, max)
            == var rest, last := ParseSteps(parts[..k], min, max), ParseStep(parts[k], min, max);
               if rest.Err? || last.Err? then Err else Ok(rest.value + [last.value])
    ensures ParseStep(parts[k], min, max).Err? ==> ParseSteps(parts, min, max).Err?
  {
    assert parts[..k + 1][..k] == parts[..k];
    if ParseStep(parts[k], min, max).Err? {
      OneBadPartSpoilsAll(parts, min, max, k);
    }
  }

  /** One turn of the parser's loop. */
  method ParsePart(part: string, min: int, max: int) returns (r: Result<Step>)
    ensures r == ParseStep(part, min, max)
  {
    hide Atoi, IndexOf;
    if part == "" {
      return Err;
    }
    var base, step := part, 1;
    var idx := IndexOf(part, '/');
    if idx.Some? {
      base := part[..idx.value];
      var parsed := Atoi(part[idx.value + 1..]);
      if parsed.None? || parsed.value <= 0 {
        return Err;
      }
      step := parsed.value;
    }
    var start, end := min, max;
    if base == "*" || base == "?" {
    } else {
      var dash := IndexOf(base, '-');
      if dash.Some? {
        var lo, hi := Atoi(base[..dash.value]), Atoi(base[dash.value + 1..]);
        if lo.None? || hi.None? {
          return Err;
        }
        start, end := lo.value, hi.value;
      } else {
        var value := Atoi(base);
        if value.None? {
          return Err;
        }
        start, end := value.value, value.value;
      }
    }
    if start < min || end > max || start > end {
      return Err;
    }
    return Ok(Step(start, end, step));
  }

  method ParseCronField(raw: string, min: int, max: int) returns (r: Result<Field>)
    ensures r == FieldOf(raw, min, max)
  {
    var parts := Split(raw, ',');
    var steps: seq<Step> := [];
    assert parts[..0] == [] && parts[..|parts|] == parts;
    hide ParseSteps, ParseStep, Split;
    for k := 0 to |parts|
      invariant ParseSteps(parts[..k], min, max) == Ok(steps) && parts[..|parts|] == parts
    {
      OneMorePart(parts, min, max, k);
      var step := ParsePart(parts[k], min, max);
      if step.Err? {
        return Err;
      }
      steps := steps + [step.value];
    }
    return Ok(Field(min, max, steps));
  }

  // ---- what a field says, apart from how it is parsed ----

  /** `*`, `?`, a single value or a span of values. */
  datatype Shape = Star | Query | Single(value: nat) | Span(lo: nat, hi: nat)
  {
    function Text(): string {
      match this
      case Star => "*"
      case Query => "?"
      case Single(v) => Decimal(v)
      case Span(lo, hi) => Decimal(lo) + "-" + Decimal(hi)
    }

    function Bounds(min: int, max: int): (int, int) {
      match this
      case Star => (min, max)
      case Query => (min, max)
      case Single(v) => (v, v)
      case Span(lo, hi) => (lo, hi)
    }

    predicate Fits() {
      (Single? ==> value <= MAX_INT) && (Span? ==> lo <= MAX_INT && hi <= MAX_INT)
    }
  }

  /** A shape, taken at every `every`-th value if one is given. */
  datatype Piece = Piece(shape: Shape, every: Option<nat>)
  {
    function Text(): string {
      shape.Text() + if every.None? then "" else "/" + Decimal(every.value)
    }

    /** The distance at which the values of its span are taken. */
    function Distance(): nat {
      if every.None? then 1 else every.value
    }

    predicate Fits() {
      shape.Fits() && (every.Some? ==> every.value <= MAX_INT)
    }

    /** The step meant, unless the piece is out of range, empty or repeats at distance zero. */
    function Meaning(min: int, max: int): Result<Step> {
      var (lo, hi) := shape.Bounds(min, max);
      if every == Some(0) || lo < min || hi > max || lo > hi then Err
      else Ok(Step(lo, hi, if every.None? then 1 else every.value))
    }
  }

  ghost predicate AllFit(pieces: seq<Piece>) {
    forall i :: 0 <= i < |pieces| ==> pieces[i].Fits()
  }

  function Texts(pieces: seq<Piece>): seq<string> {
    if pieces == [] then [] else Texts(pieces[..|pieces| - 1]) + [pieces[|pieces| - 1].Text()]
  }

  function Meanings(pieces: seq<Piece>, min: int, max: int): Result<seq<Step>> {
    if pieces == [] then Ok([])
    else
      var rest := Meanings(pieces[..|pieces| - 1], min, max);
      var last := pieces[|pieces| - 1].Meaning(min, max);
      if rest.Err? || last.Err? then Err else Ok(rest.value + [last.value])
  }

  lemma ShapeRead(shape: Shape, min: int, max: int)
    requires shape.Fits()
    ensures ParseBounds(shape.Text(), min, max) == Some(shape.Bounds(min, max))
    ensures '/' !in shape.Text() && ',' !in shape.Text() && shape.Text() != []
  {
    var text := shape.Text();
    hide Decimal, Atoi, IndexOf;
    match shape
    case Star =>
    case Query =>
    case Single(v) =>
      AtoiOfDecimal(v);
      assert IsDigit(text[0]) && '-' !in text;
    case Span(lo, hi) =>
      AtoiOfDecimal(lo);
      AtoiOfDecimal(hi);
      assert IsDigit(Decimal(lo)[0]) && text[0] == Decimal(lo)[0];
      assert '-' !in Decimal(lo);
      IndexBehind(Decimal(lo), '-', Decimal(hi));
  }

  /** A part with a slash: what is behind it is the step. */
  lemma SlashRead(base: string, every: string, min: int, max: int)
    requires '/' !in base && ',' !in base && ',' !in every
    ensures var part, step, bounds := base + "/" + every, Atoi(every), ParseBounds(base, min, max);
      && ',' !in part
      && ParseStep(part, min, max)
         == if step.None? || step.value <= 0 || bounds.None? then Err
            else if bounds.value.0 < min || bounds.value.1 > max || bounds.value.0 > bounds.value.1 then Err
            else Ok(Step(bounds.value.0, bounds.value.1, step.value))
  {
    hide Atoi, IndexOf, ParseBounds;
    IndexBehind(base, '/', every);
  }

  lemma PieceRead(p: Piece, min: int, max: int)
    requires p.Fits()
    ensures ParseStep(p.Text(), min, max) == p.Meaning(min, max) && ',' !in p.Text()
  {
    hide Decimal, Atoi, IndexOf, ParseBounds, Shape.Text, Shape.Bounds;
    ShapeRead(p.shape, min, max);
    var base := p.shape.Text();
    if p.every.Some? {
      var every := Decimal(p.every.value);
      AtoiOfDecimal(p.every.value);
      DecimalIsPlain(p.every.value, ',');
      SlashRead(base, every, min, max);
      Wire.ConcatAssociative(base, "/", every);
      hide ParseStep;
    } else {
      assert p.Text() == base;
    }
  }

  lemma {:induction false} PiecesRead(pieces: seq<Piece>, min: int, max: int)
    requires AllFit(pieces)
    ensures ParseSteps(Texts(pieces), min, max) == Meanings(pieces, min, max)
    ensures |Texts(pieces)| == |pieces|
    ensures forall i :: 0 <= i < |pieces| ==> ',' !in Texts(pieces)[i]
  {
    hide Piece.Text, Piece.Meaning, ParseStep;
    if pieces == [] {
    } else {
      var front, last := pieces[..|pieces| - 1], pieces[|pieces| - 1];
      PiecesRead(front, min, max);
      PieceRead(last, min, max);
      var texts := Texts(pieces);
      assert texts[..|texts| - 1] == Texts(front);
    }
  }

  /** Parsing the text of any comma-separated pieces gives exactly what they mean, or their error. */
  lemma FieldRoundTrip(pieces: seq<Piece>, min: int, max: int)
    requires pieces != [] && AllFit(pieces)
    ensures var steps := Meanings(pieces, min, max);
      FieldOf(Join(Texts(pieces), ','), min, max) == if steps.Err? then Err else Ok(Field(min, max, steps.value))
  {
    PiecesRead(pieces, min, max);
    SplitOfJoin(Texts(pieces), ',');
  }

  /** An unrestricted field matches everything it could name. */
  lemma UnrestrictedMatchesAll(f: Field, value: int)
    requires f.WellFormed() && !f.Restricted() && f.min <= value <= f.max
    ensures f.Matches(value)
  {
    assert f.steps[0].Matches(value);
  }

  /** A field is never empty: it matches the first value of each of its steps. */
  lemma SomethingMatches(f: Field) returns (v: int)
    requires f.WellFormed()
    ensures f.min <= v <= f.max && f.Matches(v)
  {
    v := f.steps[0].start;
    assert f.steps[0].Within(f.min, f.max);
    assert f.steps[0].Matches(v);
  }

  // ---- schedules ----

  datatype Schedule = Schedule(raw: string, minutes: Field, hours: Field, days: Field, months: Field, weekdays: Field)
  {
    ghost predicate WellFormed() {
      && minutes.WellFormed() && minutes.min == 0 && minutes.max == 59
      && hours.WellFormed() && hours.min == 0 && hours.max == 23
      && days.WellFormed() && days.min == 1 && days.max == 31
      && months.WellFormed() && months.min == 1 && months.max == 12
      && weekdays.WellFormed() && weekdays.min == 0 && weekdays.max == 6
    }

    /** Day and weekday are alternatives when both are restricted, and both required otherwise. */
    ghost predicate MatchesDay(n: nat)
      requires WellFormed()
    {
      var dayOk, weekdayOk := days.Matches(Civil(n).day), weekdays.Matches(Weekday(n));
      if days.Restricted() && weekdays.Restricted() then dayOk || weekdayOk else dayOk && weekdayOk
    }

    method MatchDay(n: nat) returns (r: bool)
      requires WellFormed()
      ensures r == MatchesDay(n)
    {
      var dayOk := days.Match(Civil(n).day);
      var weekdayOk := weekdays.Match(Weekday(n));
      if days.Restricted() && weekdays.Restricted() {
        return dayOk || weekdayOk;
      }
      return dayOk && weekdayOk;
    }

    /** The schedule fires at the start of the k-th minute. */
    ghost predicate Fires(k: nat)
      requires WellFormed()
    {
      && months.Matches(Civil(k / DAY_MINUTES).month) && MatchesDay(k / DAY_MINUTES)
      && hours.Matches(k % DAY_MINUTES / 60) && minutes.Matches(k % 60)
    }
  }

  const MINUTE := 60_000_000_000
  const DAY_MINUTES := 1440
  const HORIZON := 366 * 1440 * MINUTE

  function ScheduleOf(raw: string): (r: Option<Schedule>)
    ensures r.Some? ==> r.value.WellFormed()
  {
    var parts := Fields(raw);
    if |parts| != 5 then None
    else
      var mi, ho := FieldOf(parts[0], 0, 59), FieldOf(parts[1], 0, 23);
      var da, mo, we := FieldOf(parts[2], 1, 31), FieldOf(parts[3], 1, 12), FieldOf(parts[4], 0, 6);
      if mi.Err? || ho.Err? || da.Err? || mo.Err? || we.Err? then None
      else Some(Schedule(Join(parts, ' '), mi.value, ho.value, da.value, mo.value, we.value))
  }

  method ParseCron(raw: string) returns (r: Option<Schedule>)
    ensures r == ScheduleOf(raw)
  {
    var parts := Fields(raw);
    if |parts| != 5 {
      return None;
    }
    hide FieldOf;
    var minutes := ParseCronField(parts[0], 0, 59);
    if minutes.Err? { return None; }
    var hours := ParseCronField(parts[1], 0, 23);
    if hours.Err? { return None; }
    var days := ParseCronField(parts[2], 1, 31);
    if days.Err? { return None; }
    var months := ParseCronField(parts[3], 1, 12);
    if months.Err? { return None; }
    var weekdays := ParseCronField(parts[4], 0, 6);
    if weekdays.Err? { return None; }
    return Some(Schedule(Join(parts, ' '), minutes.value, hours.value, days.value, months.value, weekdays.value));
  }

  /** What is stored for a schedule, its `raw` text, parses to that very schedule again. */
  lemma RawReparses(raw: string)
    requires ScheduleOf(raw).Some?
    ensures ScheduleOf(ScheduleOf(raw).value.raw) == ScheduleOf(raw)
  {
    hide FieldOf;
    FieldsAreWords(raw, []);
    FieldsOfJoin(Fields(raw));
  }

  // ---- whole expressions ----

  lemma ShapeIsWord(shape: Shape)
    ensures IsWord(shape.Text())
  {
    assert IsWord("-");
    match shape
    case Star =>
    case Query =>
    case Single(v) => DecimalIsWord(v);
    case Span(lo, hi) =>
      DecimalIsWord(lo);
      DecimalIsWord(hi);
      hide IsWord, Decimal;
      WordsConcat(Decimal(lo), "-");
      WordsConcat(Decimal(lo) + "-", Decimal(hi));
  }

  lemma PieceIsWord(p: Piece)
    ensures IsWord(p.Text())
  {
    assert IsWord("/");
    hide IsWord, Decimal, Shape.Text;
    ShapeIsWord(p.shape);
    if p.every.Some? {
      DecimalIsWord(p.every.value);
      WordsConcat("/", Decimal(p.every.value));
      WordsConcat(p.shape.Text(), "/" + Decimal(p.every.value));
    } else {
      assert p.Text() == p.shape.Text();
    }
  }

  lemma {:induction false} TextsAreWords(pieces: seq<Piece>)
    ensures AllWords(Texts(pieces)) && |Texts(pieces)| == |pieces|
  {
    hide IsWord, Piece.Text;
    if pieces == [] {
    } else {
      TextsAreWords(pieces[..|pieces| - 1]);
      PieceIsWord(pieces[|pieces| - 1]);
    }
  }

  function FieldText(pieces: seq<Piece>): string {
    Join(Texts(pieces), ',')
  }

  lemma FieldTextRead(pieces: seq<Piece>, min: int, max: int)
    requires pieces != [] && AllFit(pieces)
    ensures IsWord(FieldText(pieces))
    ensures var steps := Meanings(pieces, min, max);
      FieldOf(FieldText(pieces), min, max) == if steps.Err? then Err else Ok(Field(min, max, steps.value))
  {
    assert !IsSpace(',');
    hide IsSpace, IsWord;
    TextsAreWords(pieces);
    JoinIsWord(Texts(pieces), ',');
    FieldRoundTrip(pieces, min, max);
  }

  /** The five fields of an expression, each a list of pieces. */
  datatype Expression = Expression(minutes: seq<Piece>, hours: seq<Piece>, days: seq<Piece>, months: seq<Piece>,
                                   weekdays: seq<Piece>)
  {
    ghost predicate Fits() {
      && minutes != [] && AllFit(minutes) && hours != [] && AllFit(hours) && days != [] && AllFit(days)
      && months != [] && AllFit(months) && weekdays != [] && AllFit(weekdays)
    }

    function Words(): seq<string> {
      [FieldText(minutes), FieldText(hours), FieldText(days), FieldText(months), FieldText(weekdays)]
    }

    function Text(): string {
      Join(Words(), ' ')
    }

    /** The schedule meant, unless a piece of some field is out of its range. */
    function Meaning(): Option<Schedule> {
      var mi, ho := Meanings(minutes, 0, 59), Meanings(hours, 0, 23);
      var da, mo, we := Meanings(days, 1, 31), Meanings(months, 1, 12), Meanings(weekdays, 0, 6);
      if mi.Err? || ho.Err? || da.Err? || mo.Err? || we.Err? then None
      else Some(Schedule(Text(), Field(0, 59, mi.value), Field(0, 23, ho.value), Field(1, 31, da.value),
                         Field(1, 12, mo.value), Field(0, 6, we.value)))
    }
  }

  /** Parsing the text of any expression gives exactly the schedule it means, or none. */
  lemma CronRoundTrip(e: Expression)
    requires e.Fits()
    ensures ScheduleOf(e.Text()) == e.Meaning()
  {
    hide IsWord, FieldText, FieldOf, Join;
    FieldTextRead(e.minutes, 0, 59);
    FieldTextRead(e.hours, 0, 23);
    FieldTextRead(e.days, 1, 31);
    FieldTextRead(e.months, 1, 12);
    FieldTextRead(e.weekdays, 0, 6);
    assert AllWords(e.Words());
    FieldsOfJoin(e.Words());
  }

  /** Midnight on every 29 February. */
  const LEAP_DAY := "0 0 29 2 *"

  function Only(n: nat): seq<Piece> {
    [Piece(Single(n), None)]
  }

  const LEAP_DAY_EXPRESSION := Expression(Only(0), Only(0), Only(29), Only(2), [Piece(Star, None)])

  lemma OneText(p: Piece)
    ensures FieldText([p]) == p.Text()
  {
    assert [p][..0] == [];
    assert Texts([p]) == [] + [p.Text()] == [p.Text()];
  }

  lemma OnlyText(n: nat)
    ensures FieldText(Only(n)) == Decimal(n)
  {
    OneText(Piece(Single(n), None));
    assert Decimal(n) + "" == Decimal(n);
  }

  lemma SmallDecimals()
    ensures Decimal(0) == "0" && Decimal(2) == "2" && Decimal(29) == "29"
  {
    assert Decimal(29) == Decimal(2) + [Digit(9)];
  }

  lemma StarText()
    ensures FieldText([Piece(Star, None)]) == "*"
  {
    OneText(Piece(Star, None));
    assert "*" + "" == "*";
  }

  lemma LeapDayText()
    ensures LEAP_DAY_EXPRESSION.Text() == LEAP_DAY
  {
    hide FieldText, Decimal;
    OnlyText(0);
    OnlyText(29);
    OnlyText(2);
    StarText();
    SmallDecimals();
    hide Only;
    var words := LEAP_DAY_EXPRESSION.Words();
    assert words[0] == "0" && words[1] == "0" && words[2] == "29" && words[3] == "2" && words[4] == "*";
    FiveWords(words);
    hide Join;
    assert "0" + " " + ("0" + " " + ("29" + " " + ("2" + " " + "*"))) == LEAP_DAY;
  }

  lemma FiveWords(words: seq<string>)
    requires |words| == 5
    ensures Join(words, ' ')
            == words[0] + " " + (words[1] + " " + (words[2] + " " + (words[3] + " " + words[4])))
  {
    assert words[1..][1..] == words[2..] && words[2..][1..] == words[3..] && words[3..][1..] == words[4..];
    assert Join(words[4..], ' ') == words[4];
    assert Join(words[3..], ' ') == words[3] + " " + Join(words[4..], ' ');
    assert Join(words[2..], ' ') == words[2] + " " + Join(words[3..], ' ');
  }

  lemma OneMeaning(p: Piece, min: int, max: int)
    ensures var m := p.Meaning(min, max); Meanings([p], min, max) == if m.Err? then Err else Ok([m.value])
  {
    assert [p][..0] == [];
    assert p.Meaning(min, max).Ok? ==> [] + [p.Meaning(min, max).value] == [p.Meaning(min, max).value];
  }

  /** The text is accepted, and as what it looks like. */
  lemma LeapDayParses()
    ensures ScheduleOf(LEAP_DAY)
            == Some(Schedule(LEAP_DAY, Field(0, 59, [Step(0, 0, 1)]), Field(0, 23, [Step(0, 0, 1)]),
                             Field(1, 31, [Step(29, 29, 1)]), Field(1, 12, [Step(2, 2, 1)]),
                             Field(0, 6, [Step(0, 6, 1)])))
  {
    hide ScheduleOf, Meanings, Expression.Text;
    LeapDayText();
    CronRoundTrip(LEAP_DAY_EXPRESSION);
    OneMeaning(Piece(Single(0), None), 0, 59);
    OneMeaning(Piece(Single(0), None), 0, 23);
    OneMeaning(Piece(Single(29), None), 1, 31);
    OneMeaning(Piece(Single(2), None), 1, 12);
    OneMeaning(Piece(Star, None), 0, 6);
  }

  /** A missing entry reads as the empty text, which is no schedule. */
  lemma EmptyIsNoSchedule()
    ensures ScheduleOf("").None?
  {
    assert Fields("") == [];
  }

  // ---- which values a field names ----

  /** The j-th value, counting from `first` at distance `step`. */
  function Nth(first: int, step: int, j: nat): int {
    first + j * step
  }

  /** A piece names the values counted from the start of its span, and none past its end. */
  ghost predicate Names(p: Piece, min: int, max: int, v: int) {
    var ((lo, hi), step) := (p.shape.Bounds(min, max), p.Distance());
    v <= hi && exists j: nat :: v == Nth(lo, step, j)
  }

  lemma StepCounts(s: Step, v: int)
    requires s.step > 0
    ensures s.Matches(v) <==> v <= s.end && exists j: nat :: v == Nth(s.start, s.step, j)
  {
    if s.Matches(v) {
      var j: nat := (v - s.start) / s.step;
      assert v - s.start == j * s.step;
      assert v == Nth(s.start, s.step, j);
    }
    forall j: nat | v == Nth(s.start, s.step, j) && v <= s.end ensures s.Matches(v) {
      WholeSteps(s.step, j);
    }
  }

  lemma WholeSteps(step: int, j: nat)
    requires step > 0
    ensures 0 <= j * step && j * step % step == 0
  {
    var q, r := j * step / step, j * step % step;
    assert j * step == step * q + r;
    assert step * (j - q) == r && step * (q - j) == -r;
    Wire.Multiple(step, j - q);
    Wire.Multiple(step, q - j);
    assert j == q;
  }

  lemma MeaningNames(p: Piece, min: int, max: int, v: int)
    requires p.Meaning(min, max).Ok?
    ensures p.Meaning(min, max).value.step > 0
    ensures p.Meaning(min, max).value.Matches(v) <==> Names(p, min, max, v)
  {
    hide Step.Matches, Shape.Bounds;
    StepCounts(p.Meaning(min, max).value, v);
  }

  lemma {:induction false} MeaningsAre(pieces: seq<Piece>, min: int, max: int)
    requires Meanings(pieces, min, max).Ok?
    ensures |Meanings(pieces, min, max).value| == |pieces|
    ensures forall i :: 0 <= i < |pieces| ==>
      pieces[i].Meaning(min, max).Ok? && Meanings(pieces, min, max).value[i] == pieces[i].Meaning(min, max).value
  {
    hide Piece.Meaning;
    if pieces == [] {
    } else {
      MeaningsAre(pieces[..|pieces| - 1], min, max);
    }
  }

  /** A parsed field matches exactly the values its comma-separated pieces name. */
  lemma FieldMatches(pieces: seq<Piece>, min: int, max: int, v: int)
    requires pieces != [] && AllFit(pieces) && FieldOf(FieldText(pieces), min, max).Ok?
    ensures FieldOf(FieldText(pieces), min, max).value.Matches(v)
            <==> exists i :: 0 <= i < |pieces| && Names(pieces[i], min, max, v)
  {
    hide Names, Step.Matches, FieldText, AllFit, Piece.Meaning, Meanings;
    FieldTextRead(pieces, min, max);
    MeaningsAre(pieces, min, max);
    forall i | 0 <= i < |pieces|
      ensures Meanings(pieces, min, max).value[i].step > 0
      ensures Meanings(pieces, min, max).value[i].Matches(v) <==> Names(pieces[i], min, max, v)
    {
      MeaningNames(pieces[i], min, max, v);
    }
    var f := FieldOf(FieldText(pieces), min, max).value;
    assert f.steps == Meanings(pieces, min, max).value;
    if f.Matches(v) {
      var i :| 0 <= i < |f.steps| && f.steps[i].Matches(v);
      assert Names(pieces[i], min, max, v);
    }
    forall i | 0 <= i < |pieces| && Names(pieces[i], min, max, v) ensures f.Matches(v) {
      assert f.steps[i].Matches(v);
    }
  }

  /** One piece: the values from the start of its span at its distance. */
  lemma PieceMatches(p: Piece, min: int, max: int, v: int)
    requires p.Fits() && FieldOf(p.Text(), min, max).Ok?
    ensures var (lo, hi) := p.shape.Bounds(min, max);
      var step := p.Distance();
      FieldOf(p.Text(), min, max).value.Matches(v) <==> v <= hi && exists j: nat :: v == Nth(lo, step, j)
  {
    hide Piece.Text, Shape.Bounds, Field.Matches, FieldText, FieldOf;
    OneText(p);
    FieldMatches([p], min, max, v);
    assert [p][0] == p;
  }

  /** Every quarter of an hour is at 0, 15, 30 and 45. */
  lemma Quarters(v: int)
    ensures var f := FieldOf("*/15", 0, 59); f.Ok? && (f.value.Matches(v) <==> v == 0 || v == 15 || v == 30 || v == 45)
  {
    hide FieldOf, Field.Matches, Piece.Text;
    var p := Piece(Star, Some(15));
    QuarterText();
    PieceMatches(p, 0, 59, v);
    assert p.shape.Bounds(0, 59) == (0, 59) && p.Distance() == 15;
    hide Shape.Bounds, Piece.Distance;
    FourQuarters(v);
  }

  lemma NthQuarter(j: nat)
    ensures Nth(0, 15, j) == 15 * j
  {
  }

  lemma FourQuarters(v: int)
    ensures (v <= 59 && exists j: nat :: v == Nth(0, 15, j)) <==> v == 0 || v == 15 || v == 30 || v == 45
  {
    hide Nth;
    NthQuarter(0);
    NthQuarter(1);
    NthQuarter(2);
    NthQuarter(3);
    forall j: nat | v == Nth(0, 15, j) && v <= 59 ensures v == 0 || v == 15 || v == 30 || v == 45 {
      NthQuarter(j);
    }
  }

  lemma QuarterText()
    ensures Piece(Star, Some(15)).Text() == "*/15" && FieldOf("*/15", 0, 59).Ok?
  {
    var p := Piece(Star, Some(15));
    assert Decimal(15) == "15" by { assert Decimal(15) == Decimal(1) + [Digit(5)]; }
    hide Decimal;
    assert p.Text() == "*/15";
    OneText(p);
    hide FieldText, Piece.Text, FieldOf, Meanings;
    FieldTextRead([p], 0, 59);
    OneMeaning(p, 0, 59);
  }

  /** A field restricts unless it is one piece naming every value. */
  lemma RestrictedExactly(pieces: seq<Piece>, min: int, max: int)
    requires pieces != [] && AllFit(pieces) && FieldOf(FieldText(pieces), min, max).Ok?
    ensures !FieldOf(FieldText(pieces), min, max).value.Restricted()
            <==> |pieces| == 1 && pieces[0].shape.Bounds(min, max) == (min, max)
                 && pieces[0].Distance() == 1
  {
    hide FieldText, AllFit, Meanings;
    FieldTextRead(pieces, min, max);
    MeaningsAre(pieces, min, max);
  }

  /** Of day and weekday an unrestricted one has no say; restricted both, either is enough. */
  lemma DayRule(s: Schedule, n: nat)
    requires s.WellFormed()
    ensures !s.weekdays.Restricted() ==> (s.MatchesDay(n) <==> s.days.Matches(Civil(n).day))
    ensures !s.days.Restricted() ==> (s.MatchesDay(n) <==> s.weekdays.Matches(Weekday(n)))
    ensures s.days.Restricted() && s.weekdays.Restricted() ==>
      (s.MatchesDay(n) <==> s.days.Matches(Civil(n).day) || s.weekdays.Matches(Weekday(n)))
  {
    hide Field.Matches, Civil, Weekday, Field.Restricted;
    if !s.weekdays.Restricted() {
      UnrestrictedMatchesAll(s.weekdays, Weekday(n));
    }
    if !s.days.Restricted() {
      UnrestrictedMatchesAll(s.days, Civil(n).day);
    }
  }

  /** Between dashes: text in front of the first one, and all of what is behind it, must be numbers. */
  lemma DashRead(lo: string, hi: string, min: int, max: int)
    requires '-' !in lo
    ensures ParseBounds(lo + "-" + hi, min, max)
            == if Atoi(lo).None? || Atoi(hi).None? then None else Some((Atoi(lo).value, Atoi(hi).value))
  {
    hide Atoi, IndexOf;
    var text := lo + "-" + hi;
    IndexBehind(lo, '-', hi);
    assert text[|lo|] == '-';
  }

  lemma {:induction false} BadPart(parts: seq<string>, i: nat, min: int, max: int)
    requires i < |parts| && (forall k :: 0 <= k < |parts| ==> ',' !in parts[k]) && ParseStep(parts[i], min, max).Err?
    ensures FieldOf(Join(parts, ','), min, max).Err?
  {
    SplitOfJoin(parts, ',');
    OneBadPartSpoilsAll(parts, min, max, i);
  }

  /** Texts that are no field: an empty part, no number, a step of zero or of nothing, three bounds or one too few. */
  lemma NotFields(min: int, max: int)
    ensures FieldOf("", min, max).Err? && FieldOf("5,", min, max).Err? && FieldOf("x", min, max).Err?
    ensures FieldOf("*/0", min, max).Err? && FieldOf("*/", min, max).Err?
    ensures FieldOf("1-2-3", min, max).Err? && FieldOf("5-", min, max).Err?
  {
    hide Atoi, IndexOf, FieldOf, ParseBounds;
    EmptyPart(min, max);
    AtoiSigned(0);
    SmallDecimals();
    assert ParseStep("x", min, max).Err? by { NoNumber("x", 0, min, max); }
    assert ParseStep("*/0", min, max).Err? by { SlashRead("*", "0", min, max); }
    assert ParseStep("*/", min, max).Err? by { SlashRead("*", "", min, max); }
    assert ParseStep("1-2-3", min, max).Err? by {
      AtoiRefuses("2-3", 1);
      DashRead("1", "2-3", min, max);
      assert "1" + "-" + "2-3" == "1-2-3";
    }
    assert ParseStep("5-", min, max).Err? by {
      DashRead("5", "", min, max);
      assert "5" + "-" + "" == "5-";
    }
    hide ParseStep;
    assert Join(["5", ""], ',') == "5," by { assert ["5", ""][1..] == [""]; }
    BadPart(["5", ""], 1, min, max);
    BadPart([""], 0, min, max);
    BadPart(["x"], 0, min, max);
    BadPart(["*/0"], 0, min, max);
    BadPart(["*/"], 0, min, max);
    BadPart(["1-2-3"], 0, min, max);
    BadPart(["5-"], 0, min, max);
  }

  lemma EmptyPart(min: int, max: int)
    ensures ParseStep("", min, max).Err?
  {
  }

  lemma NoNumber(part: string, i: nat, min: int, max: int)
    requires i < |part| && !IsDigit(part[i]) && part[i] !in "+-*?" && '/' !in part && '-' !in part
    ensures ParseStep(part, min, max).Err?
  {
    AtoiRefuses(part, i);
    hide Atoi, IndexOf;
  }

  const DAILY := Expression(Only(32), Only(16), [Piece(Star, None)], [Piece(Star, None)], [Piece(Star, None)])

  lemma DailyText()
    ensures DAILY.Text() == "32 16 * * *"
  {
    hide FieldText, Decimal;
    OnlyText(32);
    OnlyText(16);
    StarText();
    DailyDecimals();
    hide Only;
    var words := DAILY.Words();
    assert words[0] == "32" && words[1] == "16" && words[2] == "*" && words[3] == "*" && words[4] == "*";
    FiveWords(words);
    hide Join;
    assert "32" + " " + ("16" + " " + ("*" + " " + ("*" + " " + "*"))) == "32 16 * * *";
  }

  lemma DailyDecimals()
    ensures Decimal(32) == "32" && Decimal(16) == "16"
  {
    assert Decimal(32) == Decimal(3) + [Digit(2)];
    assert Decimal(16) == Decimal(1) + [Digit(6)];
  }

  /** An expression of the usual kind is accepted as what it looks like. */
  lemma DailyParses()
    ensures ScheduleOf("32 16 * * *")
            == Some(Schedule("32 16 * * *", Field(0, 59, [Step(32, 32, 1)]), Field(0, 23, [Step(16, 16, 1)]),
                             Field(1, 31, [Step(1, 31, 1)]), Field(1, 12, [Step(1, 12, 1)]),
                             Field(0, 6, [Step(0, 6, 1)])))
  {
    hide ScheduleOf, Meanings, Expression.Text;
    DailyText();
    CronRoundTrip(DAILY);
    OneMeaning(Piece(Single(32), None), 0, 59);
    OneMeaning(Piece(Single(16), None), 0, 23);
    OneMeaning(Piece(Star, None), 1, 31);
    OneMeaning(Piece(Star, None), 1, 12);
    OneMeaning(Piece(Star, None), 0, 6);
  }
}
