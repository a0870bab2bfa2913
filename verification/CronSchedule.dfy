/** Cron firings in a window of dates (`schedule_runs`). The implementation
    multiplies set sizes; the specification counts every single minute. */
module CronSchedule {
  import opened Common
  import opened PythonText

  /** A calendar date. `weekday` is Monday-based, as Python's `date.weekday()`. */
  datatype Day = Day(dayOfMonth: int, month: int, weekday: int)

  /** One `low-high/step` term of a cron field. */
  datatype Term = Term(low: nat, high: nat, step: nat)

  /** The five fields of one cron expression. The two flags record whether the
      day fields are written as a bare star. */
  datatype Cron = Cron(minute: seq<Term>, hour: seq<Term>, dayOfMonth: seq<Term>, month: seq<Term>,
                       weekday: seq<Term>, anyDay: bool, anyWeekday: bool)

  /** The text of one `cron:` entry, split at blanks. */
  type Entry = seq<string>

  /* ---- reading an expression; None stands for ValueError ---- */

  function ParseTerm(text: string, minimum: nat, maximum: int): Option<Term>
  {
    var (span, stride) := Partition(text, '/');
    match if stride == "" then Some(1) else ToInt(stride)
    case None => None
    case Some(step) =>
      if step <= 0 then None
      else
        match ParseSpan(span, minimum, maximum)
        case None => None
        case Some((low, high)) =>
          if minimum <= low <= high <= maximum then Some(Term(low, high, step)) else None
  }

  function ParseSpan(span: string, minimum: nat, maximum: int): Option<(int, int)> {
    if span == "*" then Some((minimum, maximum))
    else if '-' in span then
      var ends := Split(span, '-');
      if |ends| != 2 then None
      else
        match (ToInt(ends[0]), ToInt(ends[1]))
        case (Some(low), Some(high)) => Some((low, high))
        case _ => None
    else
      match ToInt(span)
      case Some(n) => Some((n, n))
      case None => None
  }

  function ParseTerms(texts: seq<string>, minimum: nat, maximum: int): Option<seq<Term>>
  {
    if texts == [] then Some([])
    else
      var before := ParseTerms(texts[..|texts| - 1], minimum, maximum);
      var last := ParseTerm(texts[|texts| - 1], minimum, maximum);
      if before.None? || last.None? then None else Some(before.value + [last.value])
  }

  function ParseField(text: string, minimum: nat, maximum: int): Option<seq<Term>>
  {
    ParseTerms(Split(text, ','), minimum, maximum)
  }

  function ParseCron(entry: Entry): Option<Cron> {
    if |entry| != 5 then None
    else
      var minute, hour := ParseField(entry[0], 0, 59), ParseField(entry[1], 0, 23);
      var dom, month, dow := ParseField(entry[2], 1, 31), ParseField(entry[3], 1, 12), ParseField(entry[4], 0, 7);
      if minute.None? || hour.None? || dom.None? || month.None? || dow.None? then None
      else Some(Cron(minute.value, hour.value, dom.value, month.value, dow.value, entry[2] == "*", entry[4] == "*"))
  }

  /* ---- the specification: every minute of the window, one by one ---- */

  predicate TermCovers(t: Term, x: int) {
    t.low <= x <= t.high && t.step > 0 && (x - t.low) % t.step == 0
  }

  predicate Covers(terms: seq<Term>, x: int) {
    terms != [] && (Covers(terms[..|terms| - 1], x) || TermCovers(terms[|terms| - 1], x))
  }

  /** Sunday may be written 0 or 7. */
  predicate WeekdayMatches(c: Cron, day: Day) {
    var weekday := (day.weekday + 1) % 7;
    Covers(c.weekday, weekday) || (weekday == 0 && Covers(c.weekday, 7))
  }

  /** Two restricted day fields combine by OR, otherwise both must match. */
  predicate DayMatches(c: Cron, day: Day) {
    Covers(c.month, day.month) &&
    if !c.anyDay && !c.anyWeekday
    then Covers(c.dayOfMonth, day.dayOfMonth) || WeekdayMatches(c, day)
    else Covers(c.dayOfMonth, day.dayOfMonth) && WeekdayMatches(c, day)
  }

  predicate Fires(c: Cron, day: Day, hour: int, minute: int) {
    DayMatches(c, day) && Covers(c.hour, hour) && Covers(c.minute, minute)
  }

  /** Every (date index, hour, minute) of the window at which the expression fires. */
  ghost function FiringTriples(c: Cron, window: seq<Day>): set<(int, int, int)> {
    set d, h, m | 0 <= d < |window| && 0 <= h < 24 && 0 <= m < 60 && Fires(c, window[d], h, m) :: (d, h, m)
  }

  /** The firings of one entry; None when it is not a cron expression. */
  ghost function EntryFirings(entry: Entry, window: seq<Day>): Option<nat> {
    var c := ParseCron(entry);
    if c.None? then None else Some(|FiringTriples(c.value, window)|)
  }

  /** The sum of the counts; None when one of them is missing. */
  function Total(counts: seq<Option<nat>>): Option<nat> {
    if counts == [] then Some(0)
    else
      var before, last := Total(counts[..|counts| - 1]), counts[|counts| - 1];
      if before.None? || last.None? then None else Some(before.value + last.value)
  }

  /** All entries over the whole window; None when some entry is not a cron expression. */
  ghost function Firings(entries: seq<Entry>, window: seq<Day>): Option<nat> {
    Total(seq(|entries|, i requires 0 <= i < |entries| => EntryFirings(entries[i], window)))
  }

  /* ---- counting triples equals multiplying set sizes ---- */

  ghost function CoveredBelow(terms: seq<Term>, n: nat): set<int> {
    set x | 0 <= x < n && Covers(terms, x)
  }

  /** The covered minutes below `m`, as triples of one date and hour. */
  ghost function Minutes(c: Cron, d: int, h: int, m: nat): set<(int, int, int)> {
    set x | 0 <= x < m && Covers(c.minute, x) :: (d, h, x)
  }

  /** The covered (hour, minute) pairs with an hour below `h`, as triples of one date. */
  ghost function Times(c: Cron, d: int, h: nat): set<(int, int, int)> {
    set x, y | 0 <= x < h && Covers(c.hour, x) && 0 <= y < 60 && Covers(c.minute, y) :: (d, x, y)
  }

  lemma CoveredBelowStep(terms: seq<Term>, n: nat)
    ensures |CoveredBelow(terms, n + 1)| == |CoveredBelow(terms, n)| + if Covers(terms, n) then 1 else 0
  {
    hide Covers;
    var before, after := CoveredBelow(terms, n), CoveredBelow(terms, n + 1);
    assert after == if Covers(terms, n) then before + {n} else before;
  }

  lemma {:induction false} MinutesSize(c: Cron, d: int, h: int, m: nat)
    ensures |Minutes(c, d, h, m)| == |CoveredBelow(c.minute, m)|
  {
    hide Covers;
    if m > 0 {
      MinutesSize(c, d, h, m - 1);
      CoveredBelowStep(c.minute, m - 1);
      MinutesStep(c, d, h, m - 1);
    }
  }

  lemma MinutesStep(c: Cron, d: int, h: int, m: nat)
    ensures |Minutes(c, d, h, m + 1)| == |Minutes(c, d, h, m)| + if Covers(c.minute, m) then 1 else 0
  {
    hide Covers;
    var before, after := Minutes(c, d, h, m), Minutes(c, d, h, m + 1);
    assert after == if Covers(c.minute, m) then before + {(d, h, m)} else before;
    assert (d, h, m) !in before;
  }

  lemma {:induction false} TimesSize(c: Cron, d: int, h: nat)
    ensures |Times(c, d, h)| == |CoveredBelow(c.minute, 60)| * |CoveredBelow(c.hour, h)|
  {
    hide Covers;
    if h == 0 {
      assert Times(c, d, h) == {} && CoveredBelow(c.hour, h) == {};
    } else {
      TimesSize(c, d, h - 1);
      TimesStep(c, d, h - 1);
      CoveredBelowStep(c.hour, h - 1);
      Distribute(|CoveredBelow(c.minute, 60)|, |CoveredBelow(c.hour, h - 1)|);
    }
  }

  lemma Distribute(a: nat, b: nat)
    ensures a * (b + 1) == a * b + a
  {
  }

  lemma TimesStep(c: Cron, d: int, h: nat)
    ensures |Times(c, d, h + 1)| == |Times(c, d, h)| + if Covers(c.hour, h) then |CoveredBelow(c.minute, 60)| else 0
  {
    hide Covers, CoveredBelow;
    var before, after, added := Times(c, d, h), Times(c, d, h + 1), Minutes(c, d, h, 60);
    MinutesSize(c, d, h, 60);
    assert after == if Covers(c.hour, h) then before + added else before;
    assert before !! added;
  }

  /** One more date adds all covered (hour, minute) pairs or none. */
  lemma DateStep(c: Cron, window: seq<Day>, k: nat)
    requires k < |window|
    ensures |FiringTriples(c, window[..k + 1])| == |FiringTriples(c, window[..k])| +
            if DayMatches(c, window[k]) then |CoveredBelow(c.minute, 60)| * |CoveredBelow(c.hour, 24)| else 0
  {
    hide Covers, DayMatches;
    var before := FiringTriples(c, window[..k]);
    TimesSize(c, k, 24);
    assert FiringTriples(c, window[..k + 1]) == if DayMatches(c, window[k]) then before + Times(c, k, 24) else before;
    assert before !! Times(c, k, 24);
  }

  /* ---- the implementation ---- */

  /** `values(expression, maximum, minimum)`: the set of covered numbers. */
  method Values(expression: string, maximum: int, minimum: nat) returns (result: Option<set<int>>)
    ensures result.None? <==> ParseField(expression, minimum, maximum).None?
    ensures result.Some? ==>
              forall x :: x in result.value <==> Covers(ParseField(expression, minimum, maximum).value, x)
  {
    hide ParseTerm, ParseTerms, Covers, TermCovers;
    var found: set<int> := {};
    var texts := Split(expression, ',');
    NoTerms(minimum, maximum);
    assert texts[..0] == [];
    for i := 0 to |texts|
      invariant ParseTerms(texts[..i], minimum, maximum).Some?
      invariant forall x :: x in found <==> Covers(ParseTerms(texts[..i], minimum, maximum).value, x)
    {
      TermsStep(texts, i, minimum, maximum);
      var term := ParseTerm(texts[i], minimum, maximum);
      if term.None? {
        NoTermsFrom(texts, i + 1, minimum, maximum);
        return None;
      }
      TermInRange(texts[i], minimum, maximum);
      var numbers := Range(term.value);
      found := found + numbers;
    }
    assert texts[..|texts|] == texts;
    return Some(found);
  }

  lemma TermInRange(text: string, minimum: nat, maximum: int)
    requires ParseTerm(text, minimum, maximum).Some?
    ensures ParseTerm(text, minimum, maximum).value.step > 0
  {
  }

  /** `range(low, high + 1, step)` as a set. */
  method Range(t: Term) returns (numbers: set<int>)
    requires t.step > 0
    ensures forall x :: x in numbers <==> TermCovers(t, x)
  {
    numbers := {};
    var x := t.low;
    FirstOfRange(t);
    while x < t.high + 1
      invariant t.low <= x && (x - t.low) % t.step == 0
      invariant forall y :: y in numbers <==> TermCovers(t, y) && y < x
      decreases t.high + 1 - x
    {
      NextOfRange(t, x);
      assert TermCovers(t, x);
      hide TermCovers;
      numbers := numbers + {x};
      x := x + t.step;
    }
  }

  lemma FirstOfRange(t: Term)
    requires t.step > 0
    ensures (t.low - t.low) % t.step == 0
    ensures forall y :: y < t.low ==> !TermCovers(t, y)
  {
    ModIs(0, 0, 0, t.step);
  }

  /** A number of the range is followed by the one a stride later and by none in between. */
  lemma NextOfRange(t: Term, x: int)
    requires t.step > 0 && t.low <= x && (x - t.low) % t.step == 0
    ensures (x + t.step - t.low) % t.step == 0
    ensures forall y :: x < y < x + t.step ==> !TermCovers(t, y)
  {
    var q := (x - t.low) / t.step;
    DivExactly(x - t.low, t.step);
    Distribute2(q + 1, q, t.step);
    ModIs(x + t.step - t.low, q + 1, 0, t.step);
    forall y | x < y < x + t.step ensures !TermCovers(t, y) {
      ModIs(y - t.low, q, y - x, t.step);
    }
  }

  lemma DivExactly(a: int, s: int)
    requires s > 0 && a % s == 0
    ensures a == (a / s) * s
  {
  }

  lemma Distribute2(q: int, p: int, s: int)
    ensures (q - p) * s == q * s - p * s
  {
  }

  lemma AtLeastOnce(n: int, s: int)
    requires n >= 1 && s > 0
    ensures n * s >= s
  {
  }

  lemma ModIs(a: int, q: int, r: int, s: int)
    requires s > 0 && a == q * s + r && 0 <= r < s
    ensures a % s == r
  {
    var p, m := a / s, a % s;
    assert a == p * s + m;
    Distribute2(q, p, s);
    Distribute2(p, q, s);
    if q > p {
      AtLeastOnce(q - p, s);
    } else if q < p {
      AtLeastOnce(p - q, s);
    }
  }

  lemma NoTerms(minimum: nat, maximum: int)
    ensures ParseTerms([], minimum, maximum) == Some([])
    ensures forall x :: !Covers([], x)
  {
  }

  /** What one more term adds to a field. */
  lemma TermsStep(texts: seq<string>, i: nat, minimum: nat, maximum: int)
    requires i < |texts|
    ensures var before, after := ParseTerms(texts[..i], minimum, maximum), ParseTerms(texts[..i + 1], minimum, maximum);
            var term := ParseTerm(texts[i], minimum, maximum);
            && (after.None? <==> before.None? || term.None?)
            && (after.Some? ==>
                  forall x :: Covers(after.value, x) <==> Covers(before.value, x) || TermCovers(term.value, x))
  {
    hide ParseTerm;
    assert texts[..i + 1][..i] == texts[..i];
    var before, term := ParseTerms(texts[..i], minimum, maximum), ParseTerm(texts[i], minimum, maximum);
    if before.Some? && term.Some? {
      assert (before.value + [term.value])[..|before.value|] == before.value;
    }
  }

  lemma {:induction false} NoTermsFrom(texts: seq<string>, i: nat, minimum: nat, maximum: int)
    requires i <= |texts| && ParseTerms(texts[..i], minimum, maximum).None?
    ensures ParseTerms(texts, minimum, maximum).None?
    decreases |texts| - i
  {
    hide ParseTerm;
    if i < |texts| {
      assert texts[..i + 1][..i] == texts[..i];
      NoTermsFrom(texts, i + 1, minimum, maximum);
    } else {
      assert texts[..i] == texts;
    }
  }

  lemma {:induction false} ParsedInRange(texts: seq<string>, minimum: nat, maximum: int, x: int)
    requires ParseTerms(texts, minimum, maximum).Some?
    requires Covers(ParseTerms(texts, minimum, maximum).value, x)
    ensures minimum <= x <= maximum
  {
    hide ToInt, ParseSpan;
    var terms := ParseTerms(texts, minimum, maximum).value;
    var before := ParseTerms(texts[..|texts| - 1], minimum, maximum).value;
    assert terms[..|terms| - 1] == before;
    if Covers(before, x) {
      ParsedInRange(texts[..|texts| - 1], minimum, maximum, x);
    }
  }

  lemma ValuesInRange(text: string, maximum: int, found: set<int>)
    requires ParseField(text, 0, maximum).Some? && maximum >= 0
    requires forall x :: x in found <==> Covers(ParseField(text, 0, maximum).value, x)
    ensures found == CoveredBelow(ParseField(text, 0, maximum).value, maximum + 1)
  {
    forall x | x in found ensures 0 <= x <= maximum {
      ParsedInRange(Split(text, ','), 0, maximum, x);
    }
  }

  /** `schedule_runs`: the firings of every entry over the window. */
  method ScheduleRuns(entries: seq<Entry>, window: seq<Day>) returns (total: Option<nat>)
    ensures total == Firings(entries, window)
  {
    hide EntryFirings;
    ghost var counts := seq(|entries|, i requires 0 <= i < |entries| => EntryFirings(entries[i], window));
    var sum: nat := 0;
    for i := 0 to |entries|
      invariant Total(counts[..i]) == Some(sum)
    {
      var runs := EntryRuns(entries[i], window);
      assert counts[..i + 1][..i] == counts[..i] && counts[i] == runs;
      if runs.None? {
        NoTotalFrom(counts, i + 1);
        return None;
      }
      sum := sum + runs.value;
    }
    assert counts[..|entries|] == counts;
    return Some(sum);
  }

  lemma {:induction false} NoTotalFrom(counts: seq<Option<nat>>, i: nat)
    requires i <= |counts| && Total(counts[..i]).None?
    ensures Total(counts).None?
    decreases |counts| - i
  {
    if i < |counts| {
      assert counts[..i + 1][..i] == counts[..i];
      NoTotalFrom(counts, i + 1);
    } else {
      assert counts[..i] == counts;
    }
  }

  /** One pass of the outer loop of `schedule_runs`. */
  method EntryRuns(entry: Entry, window: seq<Day>) returns (runs: Option<nat>)
    ensures runs == EntryFirings(entry, window)
  {
    hide ParseField, Covers;
    if |entry| != 5 { return None; }
    var minutes := Values(entry[0], 59, 0);
    if minutes.None? { return None; }
    var hours := Values(entry[1], 23, 0);
    if hours.None? { return None; }
    var days := Values(entry[2], 31, 1);
    if days.None? { return None; }
    var months := Values(entry[3], 12, 1);
    if months.None? { return None; }
    var weekdays := Values(entry[4], 7, 0);
    if weekdays.None? { return None; }
    ghost var c := ParseCron(entry).value;
    ValuesInRange(entry[0], 59, minutes.value);
    ValuesInRange(entry[1], 23, hours.value);
    var total := DatesRun(c, entry[2] != "*" && entry[4] != "*", |minutes.value| * |hours.value|,
                          days.value, months.value, weekdays.value, window);
    return Some(total);
  }

  /** The inner loop of `schedule_runs` over the dates of the window. */
  method DatesRun(ghost c: Cron, restricted: bool, times: nat, days: set<int>, months: set<int>, weekdays: set<int>,
                  window: seq<Day>) returns (total: nat)
    requires restricted <==> !c.anyDay && !c.anyWeekday
    requires times == |CoveredBelow(c.minute, 60)| * |CoveredBelow(c.hour, 24)|
    requires forall x :: x in days <==> Covers(c.dayOfMonth, x)
    requires forall x :: x in months <==> Covers(c.month, x)
    requires forall x :: x in weekdays <==> Covers(c.weekday, x)
    ensures total == |FiringTriples(c, window)|
  {
    hide Covers;
    total := 0;
    for offset := 0 to |window|
      invariant total == |FiringTriples(c, window[..offset])|
    {
      var day := window[offset];
      var weekday := (day.weekday + 1) % 7;
      var weekMatch := weekday in weekdays || (weekday == 0 && 7 in weekdays);
      var dayMatch := day.dayOfMonth in days;
      var matches := if restricted then dayMatch || weekMatch else dayMatch && weekMatch;
      DateStep(c, window, offset);
      if day.month in months && matches {
        total := total + times;
      }
    }
    assert window[..|window|] == window;
  }

  /* ---- what a reader may rely on ---- */

  /** Writing a term twice, or a term that another already covers, changes nothing. */
  lemma OverlapCountsOnce(c: Cron, extra: Term, window: seq<Day>)
    requires forall x :: TermCovers(extra, x) ==> Covers(c.minute, x)
    ensures FiringTriples(c.(minute := c.minute + [extra]), window) == FiringTriples(c, window)
  {
    assert (c.minute + [extra])[..|c.minute|] == c.minute;
  }

  /** A term as `low-high/step`. */
  function PrintTerm(t: Term): string {
    Decimal(t.low) + "-" + Decimal(t.high) + "/" + Decimal(t.step)
  }

  predicate InRange(t: Term, minimum: nat, maximum: int) {
    minimum <= t.low <= t.high <= maximum && t.step > 0
  }

  function PrintField(terms: seq<Term>): string
    requires terms != []
  {
    if |terms| == 1 then PrintTerm(terms[0]) else PrintTerm(terms[0]) + "," + PrintField(terms[1..])
  }

  lemma {:induction false} PartitionAt(head: string, mark: char, tail: string)
    requires mark !in head
    ensures Partition(head + [mark] + tail, mark) == (head, tail)
  {
    var text := head + [mark] + tail;
    if head == "" {
      assert text[1..] == tail;
    } else {
      assert text[1..] == head[1..] + [mark] + tail;
      PartitionAt(head[1..], mark, tail);
      assert [head[0]] + head[1..] == head;
    }
  }

  lemma DigitsAreNoMarks()
    ensures forall c :: IsDigit(c) ==> c != '-' && c != '/' && c != ',' && c != '*'
  {
  }

  lemma ParsePrintedTerm(t: Term, minimum: nat, maximum: int)
    requires InRange(t, minimum, maximum)
    ensures ParseTerm(PrintTerm(t), minimum, maximum) == Some(t) && ',' !in PrintTerm(t)
  {
    hide Split, Partition, ToInt, Decimal, IsDigit;
    var low, high, step := Decimal(t.low), Decimal(t.high), Decimal(t.step);
    assert forall c :: IsDigit(c) ==> c != '-' && c != '/' && c != ',' && c != '*' by { DigitsAreNoMarks(); }
    var span := low + "-" + high;
    assert span == low + ['-'] + high && PrintTerm(t) == span + ['/'] + step;
    PartitionAt(span, '/', step);
    SplitPrefix(low, '-', high);
    SplitWhole(high, '-');
    assert Split(span, '-') == [low, high];
    assert '-' in span && span != "*";
    ToIntDecimal(t.low);
    ToIntDecimal(t.high);
    ToIntDecimal(t.step);
  }

  lemma {:induction false} SplitField(terms: seq<Term>, minimum: nat, maximum: int)
    requires terms != [] && forall i :: 0 <= i < |terms| ==> InRange(terms[i], minimum, maximum)
    ensures Split(PrintField(terms), ',') == seq(|terms|, i requires 0 <= i < |terms| => PrintTerm(terms[i]))
  {
    hide Split, PrintTerm, ParseTerm;
    ParsePrintedTerm(terms[0], minimum, maximum);
    if |terms| == 1 {
      SplitWhole(PrintTerm(terms[0]), ',');
    } else {
      SplitField(terms[1..], minimum, maximum);
      assert PrintField(terms) == PrintTerm(terms[0]) + [','] + PrintField(terms[1..]);
      SplitPrefix(PrintTerm(terms[0]), ',', PrintField(terms[1..]));
    }
  }

  lemma {:induction false} ParsePrintedTerms(terms: seq<Term>, minimum: nat, maximum: int)
    requires forall i :: 0 <= i < |terms| ==> InRange(terms[i], minimum, maximum)
    ensures ParseTerms(seq(|terms|, i requires 0 <= i < |terms| => PrintTerm(terms[i])), minimum, maximum) ==
            Some(terms)
  {
    hide PrintTerm, ParseTerm;
    if terms != [] {
      var init, last := terms[..|terms| - 1], terms[|terms| - 1];
      var texts := seq(|terms|, i requires 0 <= i < |terms| => PrintTerm(terms[i]));
      ParsePrintedTerms(init, minimum, maximum);
      assert texts[..|terms| - 1] == seq(|init|, i requires 0 <= i < |init| => PrintTerm(init[i]));
      ParsePrintedTerm(last, minimum, maximum);
      assert terms == init + [last];
    }
  }

  /** ROUND TRIP. A field written out as a list of `low-high/step` terms reads back as
      these terms. */
  lemma ParsePrintedField(terms: seq<Term>, minimum: nat, maximum: int)
    requires terms != [] && forall i :: 0 <= i < |terms| ==> InRange(terms[i], minimum, maximum)
    ensures ParseField(PrintField(terms), minimum, maximum) == Some(terms)
  {
    hide Split, PrintTerm, ParseTerm, ParseTerms, PrintField;
    SplitField(terms, minimum, maximum);
    ParsePrintedTerms(terms, minimum, maximum);
  }

  /* ---- a stride over a star counts as restricted ---- */

  lemma ParseStarStep(step: nat, minimum: nat, maximum: nat)
    requires step > 0 && minimum <= maximum
    ensures ParseField("*/" + Decimal(step), minimum, maximum) == Some([Term(minimum, maximum, step)])
  {
    hide Split, Partition, ToInt, Decimal, IsDigit, ParseTerms;
    var text := "*/" + Decimal(step);
    assert forall c :: IsDigit(c) ==> c != '-' && c != '/' && c != ',' && c != '*' by { DigitsAreNoMarks(); }
    assert text == "*" + ['/'] + Decimal(step);
    PartitionAt("*", '/', Decimal(step));
    ToIntDecimal(step);
    SplitWhole(text, ',');
    ParseOneTerm(text, minimum, maximum);
  }

  lemma ParseNumber(n: nat, minimum: nat, maximum: nat)
    requires minimum <= n <= maximum
    ensures ParseField(Decimal(n), minimum, maximum) == Some([Term(n, n, 1)]) && Decimal(n) != "*"
  {
    hide Split, Partition, ToInt, Decimal, IsDigit, ParseTerms;
    var text := Decimal(n);
    assert forall c :: IsDigit(c) ==> c != '-' && c != '/' && c != ',' && c != '*' by { DigitsAreNoMarks(); }
    PartitionWhole(text, '/');
    ToIntDecimal(n);
    SplitWhole(text, ',');
    ParseOneTerm(text, minimum, maximum);
    assert text[0] in text;
  }

  lemma {:induction false} PartitionWhole(text: string, mark: char)
    requires mark !in text
    ensures Partition(text, mark) == (text, "")
  {
    if text != "" {
      PartitionWhole(text[1..], mark);
      assert [text[0]] + text[1..] == text;
    }
  }

  lemma ParseOneTerm(text: string, minimum: nat, maximum: nat)
    ensures ParseTerms([text], minimum, maximum) ==
            if ParseTerm(text, minimum, maximum).None? then None else Some([ParseTerm(text, minimum, maximum).value])
  {
    hide ParseTerm;
    assert [text][..0] == [];
    NoTerms(minimum, maximum);
    var term := ParseTerm(text, minimum, maximum);
    if term.Some? {
      assert [] + [term.value] == [term.value];
    }
  }

  lemma CoversStride(low: nat, high: nat, step: nat, x: int)
    requires low <= x <= high && step > 0
    ensures Covers([Term(low, high, step)], x) <==> (x - low) % step == 0
  {
    assert [Term(low, high, step)][..0] == [];
  }

  lemma CoversNumber(n: nat, x: int)
    ensures Covers([Term(n, n, 1)], x) <==> x == n
  {
    assert [Term(n, n, 1)][..0] == [];
  }

  // The entry `* * */step * weekday`.
  function StarStepEntry(step: nat, weekday: nat): Entry {
    ["*", "*", "*/" + Decimal(step), "*", Decimal(weekday)]
  }

  lemma ParseStar(minimum: nat, maximum: nat)
    requires minimum <= maximum
    ensures ParseField("*", minimum, maximum) == Some([Term(minimum, maximum, 1)])
  {
    hide Split, Partition, ToInt, ParseTerms;
    PartitionWhole("*", '/');
    SplitWhole("*", ',');
    ParseOneTerm("*", minimum, maximum);
  }

  function StarStepCron(step: nat, weekday: nat): Cron {
    Cron([Term(0, 59, 1)], [Term(0, 23, 1)], [Term(1, 31, step)], [Term(1, 12, 1)], [Term(weekday, weekday, 1)],
         false, false)
  }

  lemma StarStepParses(step: nat, weekday: nat)
    requires step > 0 && weekday <= 6
    ensures ParseCron(StarStepEntry(step, weekday)) == Some(StarStepCron(step, weekday))
  {
    ParseStar(0, 59);
    ParseStar(0, 23);
    ParseStarStep(step, 1, 31);
    ParseStar(1, 12);
    ParseNumber(weekday, 0, 7);
    hide ParseField, Decimal;
    assert |"*/" + Decimal(step)| > 1;
  }

  lemma StarStepMonth(step: nat, weekday: nat, day: Day)
    requires 1 <= day.month <= 12
    ensures Covers(StarStepCron(step, weekday).month, day.month)
  {
    CoversStride(1, 12, 1, day.month);
  }

  lemma StarStepWeekday(step: nat, weekday: nat, day: Day)
    requires weekday <= 6
    ensures WeekdayMatches(StarStepCron(step, weekday), day) <==> (day.weekday + 1) % 7 == weekday
  {
    hide Covers;
    CoversNumber(weekday, (day.weekday + 1) % 7);
    CoversNumber(weekday, 7);
  }

  /** A day-of-month field that starts with a star and has a stride is no bare star:
      with a weekday beside it the two combine by OR. */
  lemma StarStepIsRestricted(step: nat, weekday: nat, day: Day)
    requires step > 0 && weekday <= 6
    requires 1 <= day.dayOfMonth <= 31 && 1 <= day.month <= 12 && 0 <= day.weekday <= 6
    ensures ParseCron(StarStepEntry(step, weekday)) == Some(StarStepCron(step, weekday))
    ensures DayMatches(StarStepCron(step, weekday), day) <==>
            (day.dayOfMonth - 1) % step == 0 || (day.weekday + 1) % 7 == weekday
  {
    hide ParseCron, Covers, WeekdayMatches, StarStepEntry;
    StarStepParses(step, weekday);
    StarStepMonth(step, weekday, day);
    StarStepWeekday(step, weekday, day);
    CoversStride(1, 31, step, day.dayOfMonth);
  }

  // `*/2` beside Monday fires on every odd date and on every Monday.
  lemma OddDatesOrMondays(day: Day)
    requires 1 <= day.dayOfMonth <= 31 && 1 <= day.month <= 12 && 0 <= day.weekday <= 6
    ensures ParseCron(["*", "*", "*/2", "*", "1"]) == Some(StarStepCron(2, 1))
    ensures DayMatches(StarStepCron(2, 1), day) <==> day.dayOfMonth % 2 == 1 || day.weekday == 0
  {
    SmallEntry();
    hide ParseCron, DayMatches, StarStepEntry, StarStepCron, Decimal, ParseField, Covers;
    StarStepIsRestricted(2, 1, day);
  }

  lemma SmallEntry()
    ensures ["*", "*", "*/2", "*", "1"] == StarStepEntry(2, 1)
  {
    assert Decimal(1) == "1" && Decimal(2) == "2";
    assert "*/" + Decimal(2) == "*/2";
  }
}
