/** The few text operations the modelled Python code relies on. */
module PythonText {
  import opened Common

  /** `text.split(mark)` for a one-character mark. */
  function Split<T(==)>(text: seq<T>, mark: T): (parts: seq<seq<T>>)
    ensures parts != []
  {
    if text == [] then [[]]
    else
      var parts := Split(text[1..], mark);
      if text[0] == mark then [[]] + parts else [[text[0]] + parts[0]] + parts[1..]
  }

  lemma {:induction false} SplitPrefix<T>(head: seq<T>, mark: T, tail: seq<T>)
    requires mark !in head
    ensures Split(head + [mark] + tail, mark) == [head] + Split(tail, mark)
  {
    var text := head + [mark] + tail;
    if head == [] {
      assert text[1..] == tail;
    } else {
      assert text[1..] == head[1..] + [mark] + tail;
      SplitPrefix(head[1..], mark, tail);
      assert [head[0]] + head[1..] == head;
    }
  }

  lemma {:induction false} SplitWhole<T>(text: seq<T>, mark: T)
    requires mark !in text
    ensures Split(text, mark) == [text]
  {
    if text != [] {
      SplitWhole(text[1..], mark);
      assert [text[0]] + text[1..] == text;
    }
  }

  /** `text.partition(mark)` without the middle part. */
  function Partition(text: string, mark: char): (string, string) {
    if text == "" then ("", "")
    else if text[0] == mark then ("", text[1..])
    else var (head, tail) := Partition(text[1..], mark); ([text[0]] + head, tail)
  }

  predicate IsDigit(c: char) { '0' <= c <= '9' }

  function DigitValue(c: char): nat
    requires IsDigit(c)
  { c as int - '0' as int }

  /** The digits of `int(text)` after an optional sign: decimal digits in which
      single underscores may stand between two digits. */
  function ToNat(text: string): Option<nat> {
    if text == "" then None
    else
      var last := text[|text| - 1];
      if !IsDigit(last) then None
      else if |text| == 1 then Some(DigitValue(last))
      else
        var rest := text[..|text| - 1];
        var trimmed := if |rest| > 1 && rest[|rest| - 1] == '_' then rest[..|rest| - 1] else rest;
        match ToNat(trimmed)
        case None => None
        case Some(n) => Some(10 * n + DigitValue(last))
  }

  /** `int(text)` for text without surrounding blanks; None stands for ValueError. */
  function ToInt(text: string): Option<int> {
    if text != "" && (text[0] == '-' || text[0] == '+') then
      match ToNat(text[1..])
      case None => None
      case Some(n) => var magnitude: int := n; Some(if text[0] == '-' then -magnitude else magnitude)
    else
      match ToNat(text)
      case None => None
      case Some(n) => Some(n)
  }

  /** `str(n)` for a natural number. */
  function Decimal(n: nat): (text: string)
    ensures text != "" && forall c :: c in text ==> IsDigit(c)
  {
    var digit := ('0' as int + n % 10) as char;
    if n < 10 then [digit] else Decimal(n / 10) + [digit]
  }

  lemma {:induction false} ToNatDecimal(n: nat)
    ensures ToNat(Decimal(n)) == Some(n)
  {
    var text := Decimal(n);
    if n >= 10 {
      ToNatDecimal(n / 10);
      var rest := Decimal(n / 10);
      assert text[..|text| - 1] == rest;
      assert IsDigit(rest[|rest| - 1]);
    }
  }

  lemma ToIntDecimal(n: nat)
    ensures ToInt(Decimal(n)) == Some(n)
  {
    hide ToNat, Decimal;
    ToNatDecimal(n);
    assert IsDigit(Decimal(n)[0]);
  }

  /** A sign in front of a number. */
  lemma ToIntSigned(n: nat)
    ensures ToInt("-" + Decimal(n)).Some? && ToInt("-" + Decimal(n)).value + n == 0
    ensures ToInt("+" + Decimal(n)).Some? && ToInt("+" + Decimal(n)).value == n
  {
    hide ToNat, Decimal;
    ToNatDecimal(n);
    assert ("-" + Decimal(n))[1..] == Decimal(n) && ("+" + Decimal(n))[1..] == Decimal(n);
  }

  /** Text with a character that is no digit, underscore or leading sign is no number. */
  lemma {:induction false} OnlyDigitsAreNumbers(text: string, i: nat)
    requires i < |text| && !IsDigit(text[i]) && text[i] != '_'
    ensures ToNat(text).None?
  {
    var last := |text| - 1;
    if IsDigit(text[last]) && |text| > 1 {
      var rest := text[..last];
      var trimmed := if |rest| > 1 && rest[|rest| - 1] == '_' then rest[..|rest| - 1] else rest;
      OnlyDigitsAreNumbers(trimmed, i);
    }
  }

  /** `text.lower()` on ASCII letters. */
  function Lower(text: string): (low: string)
    ensures |low| == |text|
  {
    if text == "" then ""
    else [if 'A' <= text[0] <= 'Z' then (text[0] as int + 32) as char else text[0]] + Lower(text[1..])
  }

  /** `part in text`. */
  predicate Contains(text: string, part: string) {
    part <= text || (text != "" && Contains(text[1..], part))
  }

  predicate EndsWith(text: string, suffix: string) {
    |suffix| <= |text| && text[|text| - |suffix|..] == suffix
  }
}
