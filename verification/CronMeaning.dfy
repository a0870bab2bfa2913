/** What the parts of a cron expression mean: the written forms of a term, the places of
    the five fields, and when an expression fires. */
module CronMeaning {
  import opened Common
  import opened PythonText
  import opened CronSchedule

  /* ---- written terms ---- */

  datatype Span = Star | Number(n: nat) | Range(low: nat, high: nat)

  /** A span with or without a stride. */
  datatype Written = Written(span: Span, stride: Option<nat>)

  function SpanText(s: Span): string {
    match s
    case Star => "*"
    case Number(n) => Decimal(n)
    case Range(low, high) => Decimal(low) + "-" + Decimal(high)
  }

  function TermText(w: Written): string {
    SpanText(w.span) + if w.stride.Some? then "/" + Decimal(w.stride.value) else ""
  }

  /** A star is the whole range of the field, a number only itself, also with a stride. */
  function Meant(w: Written, minimum: nat, maximum: nat): Option<Term> {
    var low := match w.span case Star => minimum case Number(n) => n case Range(l, _) => l;
    var high := match w.span case Star => maximum case Number(n) => n case Range(_, h) => h;
    var step := if w.stride.Some? then w.stride.value else 1;
    if step > 0 && minimum <= low <= high <= maximum then Some(Term(low, high, step)) else None
  }

  lemma NoMarks(text: string)
    requires forall c :: c in text ==> IsDigit(c)
    ensures '-' !in text && '/' !in text && ',' !in text && '*' !in text
  {
    DigitsAreNoMarks();
    hide IsDigit;
  }

  lemma SpanHasNoMarks(s: Span)
    ensures '/' !in SpanText(s) && ',' !in SpanText(s)
  {
    hide Decimal;
    match s
    case Star =>
    case Number(n) => NoMarks(Decimal(n));
    case Range(low, high) =>
      NoMarks(Decimal(low));
      NoMarks(Decimal(high));
  }

  /** The numbers of a span, before the range check. */
  lemma SpanReads(s: Span, minimum: nat, maximum: nat)
    ensures ParseSpan(SpanText(s), minimum, maximum) ==
            match s
            case Star => Some((minimum, maximum))
            case Number(n) => Some((n, n))
            case Range(low, high) => Some((low, high))
  {
    hide Decimal, ToInt, Split;
    match s
    case Star =>
    case Number(n) =>
      NoMarks(Decimal(n));
      ToIntDecimal(n);
      assert Decimal(n)[0] in Decimal(n);
    case Range(low, high) =>
      NoMarks(Decimal(low));
      NoMarks(Decimal(high));
      ToIntDecimal(low);
      ToIntDecimal(high);
      var text := SpanText(s);
      assert text == Decimal(low) + ['-'] + Decimal(high);
      SplitPrefix(Decimal(low), '-', Decimal(high));
      SplitWhole(Decimal(high), '-');
      assert '-' in text && text != "*";
  }

  lemma TermParts(w: Written)
    ensures Partition(TermText(w), '/') == (SpanText(w.span), if w.stride.Some? then Decimal(w.stride.value) else "")
  {
    hide Decimal, Partition, SpanText;
    SpanHasNoMarks(w.span);
    if w.stride.Some? {
      PartitionAt(SpanText(w.span), '/', Decimal(w.stride.value));
      assert TermText(w) == SpanText(w.span) + ['/'] + Decimal(w.stride.value);
    } else {
      PartitionWhole(SpanText(w.span), '/');
      assert TermText(w) == SpanText(w.span);
    }
  }

  /** EXACT TERM. A written term reads as what is meant, and is rejected exactly when its
      stride is zero or its numbers are out of order or range. */
  lemma TermReads(w: Written, minimum: nat, maximum: nat)
    ensures ParseTerm(TermText(w), minimum, maximum) == Meant(w, minimum, maximum)
    ensures ',' !in TermText(w)
  {
    hide Decimal, Partition, SpanText, ParseSpan, ToInt;
    TermParts(w);
    SpanReads(w.span, minimum, maximum);
    SpanHasNoMarks(w.span);
    if w.stride.Some? {
      ToIntDecimal(w.stride.value);
      NoMarks(Decimal(w.stride.value));
    }
  }

  /* ---- written fields ---- */

  function FieldText(ws: seq<Written>): string
    requires ws != []
  {
    if |ws| == 1 then TermText(ws[0]) else TermText(ws[0]) + "," + FieldText(ws[1..])
  }

  function Texts(ws: seq<Written>): seq<string> {
    seq(|ws|, i requires 0 <= i < |ws| => TermText(ws[i]))
  }

  /** The terms meant, when each of them is accepted. */
  function AllMeant(ws: seq<Written>, minimum: nat, maximum: nat): Option<seq<Term>> {
    if forall i :: 0 <= i < |ws| ==> Meant(ws[i], minimum, maximum).Some?
    then Some(seq(|ws|, i requires 0 <= i < |ws| => Meant(ws[i], minimum, maximum).value))
    else None
  }

  lemma {:induction false} FieldParts(ws: seq<Written>)
    requires ws != []
    ensures Split(FieldText(ws), ',') == Texts(ws)
  {
    hide Split, TermText, ParseTerm, Meant;
    TermReads(ws[0], 0, 0);
    if |ws| == 1 {
      SplitWhole(TermText(ws[0]), ',');
    } else {
      FieldParts(ws[1..]);
      assert FieldText(ws) == TermText(ws[0]) + [','] + FieldText(ws[1..]);
      SplitPrefix(TermText(ws[0]), ',', FieldText(ws[1..]));
      assert Texts(ws) == [TermText(ws[0])] + Texts(ws[1..]);
    }
  }

  lemma {:induction false} TextsRead(ws: seq<Written>, minimum: nat, maximum: nat)
    ensures ParseTerms(Texts(ws), minimum, maximum) == AllMeant(ws, minimum, maximum)
  {
    hide TermText, ParseTerm, Meant;
    if ws == [] {
      assert AllMeant(ws, minimum, maximum).value == [];
    } else {
      var n := |ws| - 1;
      TextsRead(ws[..n], minimum, maximum);
      TermReads(ws[n], minimum, maximum);
      assert Texts(ws)[..n] == Texts(ws[..n]);
      assert forall i :: 0 <= i < n ==> ws[..n][i] == ws[i];
      AllMeantStep(ws[..n], ws[n], minimum, maximum);
      assert ws[..n] + [ws[n]] == ws;
      hide AllMeant;
    }
  }

  lemma AllMeantStep(ws: seq<Written>, w: Written, minimum: nat, maximum: nat)
    ensures var before, last := AllMeant(ws, minimum, maximum), Meant(w, minimum, maximum);
            AllMeant(ws + [w], minimum, maximum) ==
            if before.None? || last.None? then None else Some(before.value + [last.value])
  {
    hide Meant;
    var more := ws + [w];
    assert more[|ws|] == w;
    assert forall i :: 0 <= i < |ws| ==> more[i] == ws[i];
    var before, last := AllMeant(ws, minimum, maximum), Meant(w, minimum, maximum);
    if before.Some? && last.Some? {
      assert AllMeant(more, minimum, maximum).Some?;
      assert AllMeant(more, minimum, maximum).value == before.value + [last.value];
    } else if before.None? {
      var i :| 0 <= i < |ws| && Meant(ws[i], minimum, maximum).None?;
      assert Meant(more[i], minimum, maximum).None?;
    }
  }

  lemma FieldReads(ws: seq<Written>, minimum: nat, maximum: nat)
    requires ws != []
    ensures ParseField(FieldText(ws), minimum, maximum) == AllMeant(ws, minimum, maximum)
  {
    hide Split, FieldText, ParseTerms, AllMeant, Texts;
    FieldParts(ws);
    TextsRead(ws, minimum, maximum);
  }

  /* ---- whole entries ---- */

  /** Five written fields in the order of an entry. */
  datatype WrittenCron = WrittenCron(minute: seq<Written>, hour: seq<Written>, dayOfMonth: seq<Written>,
                                     month: seq<Written>, weekday: seq<Written>)

  predicate Complete(w: WrittenCron) {
    w.minute != [] && w.hour != [] && w.dayOfMonth != [] && w.month != [] && w.weekday != []
  }

  function EntryText(w: WrittenCron): Entry
    requires Complete(w)
  {
    [FieldText(w.minute), FieldText(w.hour), FieldText(w.dayOfMonth), FieldText(w.month), FieldText(w.weekday)]
  }

  const BARE := [Written(Star, None)]

  lemma OnlyBareIsStar(ws: seq<Written>)
    requires ws != []
    ensures FieldText(ws) == "*" <==> ws == BARE
  {
    hide Decimal;
    var first := ws[0];
    if first.span.Number? {
      NoMarks(Decimal(first.span.n));
      assert Decimal(first.span.n)[0] in Decimal(first.span.n);
      assert FieldText(ws)[0] == Decimal(first.span.n)[0];
    } else if first.span.Range? {
      NoMarks(Decimal(first.span.low));
      assert Decimal(first.span.low)[0] in Decimal(first.span.low);
      assert FieldText(ws)[0] == Decimal(first.span.low)[0];
    }
    if first == Written(Star, None) && |ws| == 1 {
      assert ws == BARE;
    }
  }

  /** EXACT ENTRY. The five fields are read in their places with their ranges, minute
      first, and a day field is unrestricted exactly when it is a bare star; an entry is
      no cron expression exactly when one of its fields is rejected. */
  lemma EntryReads(w: WrittenCron)
    requires Complete(w)
    ensures var minute, hour := AllMeant(w.minute, 0, 59), AllMeant(w.hour, 0, 23);
            var dom, month, dow := AllMeant(w.dayOfMonth, 1, 31), AllMeant(w.month, 1, 12), AllMeant(w.weekday, 0, 7);
            ParseCron(EntryText(w)) ==
            if minute.None? || hour.None? || dom.None? || month.None? || dow.None? then None
            else Some(Cron(minute.value, hour.value, dom.value, month.value, dow.value,
                           w.dayOfMonth == BARE, w.weekday == BARE))
  {
    hide FieldText, ParseField, AllMeant;
    FieldReads(w.minute, 0, 59);
    FieldReads(w.hour, 0, 23);
    FieldReads(w.dayOfMonth, 1, 31);
    FieldReads(w.month, 1, 12);
    FieldReads(w.weekday, 0, 7);
    OnlyBareIsStar(w.dayOfMonth);
    OnlyBareIsStar(w.weekday);
  }

  /** An entry of another length is no cron expression. */
  lemma OtherLengthsAreRejected(entry: Entry)
    requires |entry| != 5
    ensures ParseCron(entry).None?
  {
  }

  /* ---- when an expression fires ---- */

  /** Number `x` of a term is reached after `k` strides. */
  ghost predicate HitOf(t: Term, x: int, k: nat) {
    t.step > 0 && x == t.low + k * t.step && x <= t.high
  }

  ghost predicate Within(terms: seq<Term>, x: int) {
    exists i: nat, k: nat :: i < |terms| && HitOf(terms[i], x, k)
  }

  lemma StrideOf(a: nat, step: nat) returns (k: nat)
    requires step > 0 && a % step == 0
    ensures a == k * step
  {
    k := a / step;
  }

  lemma StrideIsMultiple(k: nat, step: nat)
    requires step > 0
    ensures k * step >= 0 && (k * step) % step == 0
  {
    ModIs(k * step, k, 0, step);
  }

  lemma TermCoversExactly(t: Term, x: int)
    ensures TermCovers(t, x) <==> exists k: nat :: HitOf(t, x, k)
  {
    if TermCovers(t, x) {
      var k := StrideOf(x - t.low, t.step);
      assert HitOf(t, x, k);
    }
    if k: nat :| HitOf(t, x, k) {
      StrideIsMultiple(k, t.step);
    }
  }

  lemma {:induction false} CoversExactly(terms: seq<Term>, x: int)
    ensures Covers(terms, x) <==> Within(terms, x)
  {
    if terms != [] {
      var n := |terms| - 1;
      CoversExactly(terms[..n], x);
      TermCoversExactly(terms[n], x);
      hide TermCovers, HitOf, Covers;
      assert Covers(terms, x) <==> Covers(terms[..n], x) || TermCovers(terms[n], x) by { CoversStep(terms, x); }
      if i: nat, k: nat :| i < |terms[..n]| && HitOf(terms[..n][i], x, k) {
        assert HitOf(terms[i], x, k);
      }
      if i: nat, k: nat :| i < |terms| && HitOf(terms[i], x, k) {
        assert i < n ==> HitOf(terms[..n][i], x, k);
      }
    }
  }

  lemma CoversStep(terms: seq<Term>, x: int)
    requires terms != []
    ensures Covers(terms, x) <==> Covers(terms[..|terms| - 1], x) || TermCovers(terms[|terms| - 1], x)
  {
  }

  /** A date, Monday being weekday 0, matches a weekday field that counts Sunday as 0 and as 7. */
  ghost predicate OnWeekday(terms: seq<Term>, day: Day) {
    if day.weekday == 6 then Within(terms, 0) || Within(terms, 7) else Within(terms, day.weekday + 1)
  }

  ghost predicate FiresOn(c: Cron, day: Day, hour: int, minute: int) {
    && Within(c.minute, minute) && Within(c.hour, hour) && Within(c.month, day.month)
    && if c.anyDay || c.anyWeekday then Within(c.dayOfMonth, day.dayOfMonth) && OnWeekday(c.weekday, day)
       else Within(c.dayOfMonth, day.dayOfMonth) || OnWeekday(c.weekday, day)
  }

  lemma FiresExactly(c: Cron, day: Day, hour: int, minute: int)
    requires 0 <= day.weekday <= 6
    ensures Fires(c, day, hour, minute) <==> FiresOn(c, day, hour, minute)
  {
    hide Covers, Within;
    CoversExactly(c.minute, minute);
    CoversExactly(c.hour, hour);
    CoversExactly(c.month, day.month);
    CoversExactly(c.dayOfMonth, day.dayOfMonth);
    CoversExactly(c.weekday, 0);
    CoversExactly(c.weekday, 7);
    CoversExactly(c.weekday, day.weekday + 1);
  }

  /** EXACT COUNT. The firings of one entry are the minutes of the window at which the
      expression fires. */
  lemma FiringsAreMinutes(c: Cron, window: seq<Day>)
    requires forall d :: 0 <= d < |window| ==> 0 <= window[d].weekday <= 6
    ensures FiringTriples(c, window) ==
            set d, h, m | 0 <= d < |window| && 0 <= h < 24 && 0 <= m < 60 && FiresOn(c, window[d], h, m) :: (d, h, m)
  {
    hide Fires, FiresOn;
    forall d, h, m | 0 <= d < |window| ensures Fires(c, window[d], h, m) <==> FiresOn(c, window[d], h, m) {
      FiresExactly(c, window[d], h, m);
    }
  }

  /** The firings of a schedule add up over its entries, and one that is no cron
      expression spoils the sum. */
  lemma FiringsAddUp(entries: seq<Entry>, entry: Entry, window: seq<Day>)
    ensures Firings([], window) == Some(0)
    ensures var before, last := Firings(entries, window), ParseCron(entry);
            Firings(entries + [entry], window) ==
            if before.None? || last.None? then None
            else Some(before.value + |FiringTriples(last.value, window)|)
  {
    hide ParseCron, FiringTriples;
    var counts := seq(|entries|, i requires 0 <= i < |entries| => EntryFirings(entries[i], window));
    var more := entries + [entry];
    var all := seq(|more|, i requires 0 <= i < |more| => EntryFirings(more[i], window));
    assert all[..|entries|] == counts;
  }

  lemma OneMeant(w: Written, minimum: nat, maximum: nat)
    ensures AllMeant([w], minimum, maximum) ==
            if Meant(w, minimum, maximum).None? then None else Some([Meant(w, minimum, maximum).value])
  {
    hide Meant;
    AllMeantStep([], w, minimum, maximum);
    assert [] + [w] == [w];
    assert AllMeant([], minimum, maximum).value == [];
    if Meant(w, minimum, maximum).Some? {
      assert [] + [Meant(w, minimum, maximum).value] == [Meant(w, minimum, maximum).value];
    }
  }

  const SIX_HOURLY := WrittenCron([Written(Number(0), None)], [Written(Star, Some(6))], BARE, BARE, BARE)

  lemma SixHourlyText()
    ensures EntryText(SIX_HOURLY) == ["0", "*/6", "*", "*", "*"]
  {
    assert Decimal(0) == "0" && Decimal(6) == "6";
    assert "*" + ("/" + Decimal(6)) == "*/6" && "0" + "" == "0" && "*" + "" == "*";
  }

  // `0 */6 * * *`: the minute comes first, then the hour.
  lemma SixHourly()
    ensures ParseCron(["0", "*/6", "*", "*", "*"]) ==
            Some(Cron([Term(0, 0, 1)], [Term(0, 23, 6)], [Term(1, 31, 1)], [Term(1, 12, 1)], [Term(0, 7, 1)],
                      true, true))
  {
    SixHourlyText();
    hide EntryText, ParseCron, AllMeant;
    EntryReads(SIX_HOURLY);
    OneMeant(Written(Number(0), None), 0, 59);
    OneMeant(Written(Star, Some(6)), 0, 23);
    OneMeant(Written(Star, None), 1, 31);
    OneMeant(Written(Star, None), 1, 12);
    OneMeant(Written(Star, None), 0, 7);
  }
}
