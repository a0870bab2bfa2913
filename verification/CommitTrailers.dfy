/** Trailers at the end of a commit message (`parseCommitTrailers`). */
module CommitTrailers {
  import opened Common
  import opened PythonText
  import opened JsText

  type Trailers = map<string, string>

  /* ---- one line ---- */

  predicate IsLetter(c: char) {
    'A' <= c <= 'Z' || 'a' <= c <= 'z'
  }

  predicate IsKeyChar(c: char) {
    IsLetter(c) || '0' <= c <= '9' || c == '-'
  }

  /** The characters that `.` does not match. */
  predicate IsLineTerminator(c: char) {
    c == '\n' || c == '\r' || c == '\U{2028}' || c == '\U{2029}'
  }

  function KeyLength(line: string): (n: nat)
    ensures n <= |line| && (forall i :: 0 <= i < n ==> IsKeyChar(line[i])) && (n < |line| ==> !IsKeyChar(line[n]))
  {
    if line == "" || !IsKeyChar(line[0]) then 0 else 1 + KeyLength(line[1..])
  }

  function SkipBlanks(s: string): (t: string)
    ensures t != "" ==> t[0] != ' ' && t[0] != '\t'
  {
    if s != "" && (s[0] == ' ' || s[0] == '\t') then SkipBlanks(s[1..]) else s
  }

  predicate OneLine(s: string) {
    forall i :: 0 <= i < |s| ==> !IsLineTerminator(s[i])
  }

  /** Key and value of a trimmed trailer line. */
  function ParseTrailer(line: string): Option<(string, string)> {
    var n := KeyLength(line);
    if n == 0 || !IsLetter(line[0]) || n == |line| || line[n] != ':' then None
    else
      var value := SkipBlanks(line[n + 1..]);
      if value == "" || !OneLine(value) then None else Some((line[..n], Trim(value)))
  }

  predicate Neutral(line: string) {
    line == "" || ParseTrailer(line).Some?
  }

  /* ---- all lines ---- */

  /** The trimmed lines of a message. */
  function Trimmed(parts: seq<string>): seq<string> {
    seq(|parts|, i requires 0 <= i < |parts| => Trim(parts[i]))
  }

  /** `replace(/\r\n/g, '\n')`. */
  function Normalize(message: string): string {
    if message == "" then ""
    else if message[0] == '\r' && |message| > 1 && message[1] == '\n' then "\n" + Normalize(message[2..])
    else [message[0]] + Normalize(message[1..])
  }

  /** Walking back from the last line to the first that is neither blank nor a
      trailer; an earlier trailer replaces a later one of the same key. */
  function TrailersOf(lines: seq<string>): Trailers {
    if lines == [] then map[]
    else
      var init, last := lines[..|lines| - 1], lines[|lines| - 1];
      if last == "" then TrailersOf(init)
      else
        match ParseTrailer(last)
        case None => map[]
        case Some((key, value)) => map[key := value] + TrailersOf(init)
  }

  lemma NoLines()
    ensures TrailersOf([]) == map[]
  {
  }

  /** One more line after a list of lines. */
  lemma TrailersStep(lines: seq<string>, line: string)
    ensures TrailersOf(lines + [line]) ==
            if line == "" then TrailersOf(lines)
            else if ParseTrailer(line).None? then map[]
            else map[ParseTrailer(line).value.0 := ParseTrailer(line).value.1] + TrailersOf(lines)
  {
    hide ParseTrailer;
    assert (lines + [line])[..|lines|] == lines;
  }

  function LinesOf(message: string): seq<string> {
    Trimmed(Split(Normalize(message), '\n'))
  }

  /** `parseCommitTrailers`. */
  method ParseCommitTrailers(message: string) returns (trailers: Trailers)
    ensures trailers == TrailersOf(LinesOf(message))
  {
    hide Normalize, Split, ParseTrailer, Trim, TrailersOf;
    var lines := Split(Normalize(message), '\n');
    ghost var trimmed := Trimmed(lines);
    trailers := map[];
    var index := |lines|;
    assert trimmed[..index] == trimmed && trimmed[..0] == [];
    assert TrailersOf([]) == map[] by { NoLines(); }
    while index > 0
      invariant 0 <= index <= |lines|
      invariant TrailersOf(trimmed) == trailers + TrailersOf(trimmed[..index])
    {
      index := index - 1;
      var line := Trim(lines[index]);
      assert trimmed[..index + 1] == trimmed[..index] + [line];
      TrailersStep(trimmed[..index], line);
      if line != "" {
        var parsed := ParseTrailer(line);
        if parsed.None? { break; }
        trailers := trailers[parsed.value.0 := parsed.value.1];
      }
    }
  }

  /* ---- the maximal suffix ---- */

  /** Where the maximal suffix of blank or trailer lines starts. */
  function SuffixStart(lines: seq<string>): (s: nat)
    ensures s <= |lines|
  {
    if lines == [] then 0
    else if !Neutral(lines[|lines| - 1]) then |lines|
    else SuffixStart(lines[..|lines| - 1])
  }

  lemma {:induction false} SuffixIsMaximal(lines: seq<string>)
    ensures forall i :: SuffixStart(lines) <= i < |lines| ==> Neutral(lines[i])
    ensures SuffixStart(lines) > 0 ==> !Neutral(lines[SuffixStart(lines) - 1])
  {
    hide Neutral;
    if lines != [] {
      SuffixIsMaximal(lines[..|lines| - 1]);
    }
  }

  /** Position `i` is the first trailer of `key` in the suffix. */
  ghost predicate FirstOf(lines: seq<string>, key: string, i: nat) {
    && SuffixStart(lines) <= i < |lines| && HasKey(lines[i], key)
    && forall j :: SuffixStart(lines) <= j < i ==> !HasKey(lines[j], key)
  }

  predicate HasKey(line: string, key: string) {
    line != "" && ParseTrailer(line).Some? && ParseTrailer(line).value.0 == key
  }

  /** The result holds exactly the keys of the maximal suffix, each with the value of
      its earliest trailer. */
  lemma {:induction false} TrailersExactly(lines: seq<string>, key: string)
    ensures key in TrailersOf(lines) <==> exists i: nat :: FirstOf(lines, key, i)
    ensures forall i: nat :: FirstOf(lines, key, i) ==> TrailersOf(lines)[key] == ParseTrailer(lines[i]).value.1
  {
    hide ParseTrailer;
    if lines != [] {
      var n := |lines| - 1;
      var init, last := lines[..n], lines[n];
      TrailersExactly(init, key);
      if Neutral(last) {
        assert SuffixStart(lines) == SuffixStart(init);
        forall i: nat | i < n ensures FirstOf(lines, key, i) <==> FirstOf(init, key, i) {
          assert forall j :: 0 <= j < n ==> init[j] == lines[j];
        }
        if HasKey(last, key) && key !in TrailersOf(init) {
          NoFirst(lines, key, n);
        }
      }
    }
  }

  /** Without a first trailer before position `n` there is none at all before it. */
  lemma NoFirst(lines: seq<string>, key: string, n: nat)
    requires n == |lines| - 1 && SuffixStart(lines) <= n && HasKey(lines[n], key)
    requires forall i: nat :: i < n ==> !FirstOf(lines, key, i)
    ensures FirstOf(lines, key, n)
  {
    hide HasKey;
    NoneBefore(lines, key, n);
  }

  lemma {:induction false} NoneBefore(lines: seq<string>, key: string, n: nat)
    requires n <= |lines| && forall i: nat :: i < n ==> !FirstOf(lines, key, i)
    ensures forall j :: SuffixStart(lines) <= j < n ==> !HasKey(lines[j], key)
  {
    hide HasKey, SuffixStart;
    if n > 0 {
      NoneBefore(lines, key, n - 1);
      assert !FirstOf(lines, key, n - 1);
    }
  }

  /* ---- line endings ---- */

  /** Each part of `b` is the part of `a` or that part with a carriage return. */
  ghost predicate ReturnsAdded(a: seq<string>, b: seq<string>) {
    |a| == |b| && forall i :: 0 <= i < |a| ==> b[i] == a[i] || b[i] == a[i] + "\r"
  }

  lemma ReturnsDoNotMatter(a: seq<string>, b: seq<string>)
    requires ReturnsAdded(a, b)
    ensures Trimmed(a) == Trimmed(b)
  {
    hide Trim;
    forall i | 0 <= i < |a| ensures Trim(a[i]) == Trim(b[i]) {
      TrimBlankEnd(a[i], '\r');
    }
  }

  lemma ReturnsAddedCons(c: char, a: seq<string>, b: seq<string>)
    requires a != [] && ReturnsAdded(a, b)
    ensures ReturnsAdded([[c] + a[0]] + a[1..], [[c] + b[0]] + b[1..])
  {
    assert [c] + (a[0] + "\r") == [c] + a[0] + "\r";
  }

  lemma SplitCons(c: char, rest: string)
    requires c != '\n'
    ensures Split([c] + rest, '\n') == [[c] + Split(rest, '\n')[0]] + Split(rest, '\n')[1..]
  {
    assert ([c] + rest)[1..] == rest;
  }

  lemma SplitNewline(rest: string)
    ensures Split("\n" + rest, '\n') == [""] + Split(rest, '\n')
    ensures Split("\r\n" + rest, '\n') == ["\r"] + Split(rest, '\n')
  {
    SplitPrefix("", '\n', rest);
    SplitPrefix("\r", '\n', rest);
    assert "" + ['\n'] + rest == "\n" + rest && "\r" + ['\n'] + rest == "\r\n" + rest;
  }

  lemma {:induction false} NormalizeRemovesReturns(message: string)
    ensures ReturnsAdded(Split(Normalize(message), '\n'), Split(message, '\n'))
  {
    if message == "" {
    } else if message[0] == '\r' && |message| > 1 && message[1] == '\n' {
      hide Split;
      NormalizeRemovesReturns(message[2..]);
      assert message == "\r\n" + message[2..];
      SplitNewline(message[2..]);
      SplitNewline(Normalize(message[2..]));
    } else {
      hide Split;
      NormalizeRemovesReturns(message[1..]);
      assert message == [message[0]] + message[1..];
      if message[0] == '\n' {
        SplitNewline(message[1..]);
        SplitNewline(Normalize(message[1..]));
      } else {
        SplitCons(message[0], message[1..]);
        SplitCons(message[0], Normalize(message[1..]));
        ReturnsAddedCons(message[0], Split(Normalize(message[1..]), '\n'), Split(message[1..], '\n'));
      }
    }
  }

  /** Every line feed preceded by a carriage return. */
  function ToCrlf(message: string): string {
    if message == "" then ""
    else (if message[0] == '\n' then "\r\n" else [message[0]]) + ToCrlf(message[1..])
  }

  lemma {:induction false} ToCrlfAddsReturns(message: string)
    ensures ReturnsAdded(Split(message, '\n'), Split(ToCrlf(message), '\n'))
  {
    if message != "" {
      var rest := ToCrlf(message[1..]);
      ToCrlfAddsReturns(message[1..]);
      assert message == [message[0]] + message[1..];
      hide Split;
      if message[0] == '\n' {
        SplitNewline(message[1..]);
        SplitNewline(rest);
      } else {
        SplitCons(message[0], message[1..]);
        SplitCons(message[0], rest);
        ReturnsAddedCons(message[0], Split(message[1..], '\n'), Split(rest, '\n'));
      }
    }
  }

  /** Normalization is only visible in characters that trimming removes. */
  lemma LinesOfSplit(message: string)
    ensures LinesOf(message) == Trimmed(Split(message, '\n'))
  {
    NormalizeRemovesReturns(message);
    ReturnsDoNotMatter(Split(Normalize(message), '\n'), Split(message, '\n'));
  }

  /** CRLF and LF messages have the same trailers. */
  lemma LineEndingsDoNotMatter(message: string)
    ensures TrailersOf(LinesOf(ToCrlf(message))) == TrailersOf(LinesOf(message))
  {
    LinesOfSplit(message);
    LinesOfSplit(ToCrlf(message));
    ToCrlfAddsReturns(message);
    ReturnsDoNotMatter(Split(message, '\n'), Split(ToCrlf(message), '\n'));
  }

  /* ---- printing ---- */

  datatype Trailer = Trailer(key: string, value: string)

  predicate Printable(t: Trailer) {
    && t.key != "" && IsLetter(t.key[0]) && (forall i :: 0 <= i < |t.key| ==> IsKeyChar(t.key[i]))
    && t.value != "" && IsTrimmed(t.value) && OneLine(t.value)
  }

  function PrintTrailer(t: Trailer): string {
    t.key + ": " + t.value
  }

  /** A body followed by one line per trailer. */
  function Print(body: string, trailers: seq<Trailer>): string {
    if trailers == [] then body
    else Print(body, trailers[..|trailers| - 1]) + "\n" + PrintTrailer(trailers[|trailers| - 1])
  }

  /** The map of a list of trailers, the earliest of a key winning. */
  function AsMap(trailers: seq<Trailer>): Trailers {
    if trailers == [] then map[]
    else map[trailers[|trailers| - 1].key := trailers[|trailers| - 1].value] + AsMap(trailers[..|trailers| - 1])
  }

  lemma {:induction false} KeyLengthIs(key: string, rest: string)
    requires (forall i :: 0 <= i < |key| ==> IsKeyChar(key[i])) && (rest == "" || !IsKeyChar(rest[0]))
    ensures KeyLength(key + rest) == |key|
  {
    if key == "" {
      assert key + rest == rest;
    } else {
      assert (key + rest)[1..] == key[1..] + rest;
      KeyLengthIs(key[1..], rest);
    }
  }

  lemma PrintedIsALine(t: Trailer)
    requires Printable(t)
    ensures PrintTrailer(t) != "" && IsTrimmed(PrintTrailer(t)) && OneLine(PrintTrailer(t))
  {
    var line := PrintTrailer(t);
    assert line[0] == t.key[0] && line[|line| - 1] == t.value[|t.value| - 1];
    forall i | 0 <= i < |line| ensures !IsLineTerminator(line[i]) {
      assert i < |t.key| ==> line[i] == t.key[i];
      assert i >= |t.key| + 2 ==> line[i] == t.value[i - |t.key| - 2];
    }
  }

  lemma SkipOne(value: string)
    requires value != "" && value[0] != ' ' && value[0] != '\t'
    ensures SkipBlanks(" " + value) == value
  {
    assert (" " + value)[1..] == value;
  }

  lemma ParsePrinted(t: Trailer)
    requires Printable(t)
    ensures ParseTrailer(PrintTrailer(t)) == Some((t.key, t.value))
  {
    hide Trim, SkipBlanks, KeyLength, IsTrimmed, IsLetter, IsKeyChar, OneLine;
    var line := PrintTrailer(t);
    assert line == t.key + (": " + t.value);
    assert !IsKeyChar(':') by { ColonIsNoKeyChar(); }
    KeyLengthIs(t.key, ": " + t.value);
    assert line[..|t.key|] == t.key && line[|t.key|] == ':' && line[|t.key| + 1..] == " " + t.value;
    TrimmedStart(t.value);
    SkipOne(t.value);
    TrimTrimmed(t.value);
  }

  lemma ColonIsNoKeyChar()
    ensures !IsKeyChar(':')
  {
  }

  lemma TrimmedStart(value: string)
    requires value != "" && IsTrimmed(value)
    ensures value[0] != ' ' && value[0] != '\t'
  {
  }

  lemma {:induction false} SplitLast(text: string, mark: char, tail: string)
    requires mark !in tail
    ensures Split(text + [mark] + tail, mark) == Split(text, mark) + [tail]
  {
    if text == "" {
      SplitPrefix("", mark, tail);
      SplitWhole(tail, mark);
      assert text + [mark] + tail == "" + [mark] + tail;
    } else {
      assert (text + [mark] + tail)[1..] == text[1..] + [mark] + tail;
      SplitLast(text[1..], mark, tail);
    }
  }

  lemma {:induction false} PrintedTrailers(body: string, trailers: seq<Trailer>)
    requires forall i :: 0 <= i < |trailers| ==> Printable(trailers[i])
    requires !Neutral(LinesOf(body)[|LinesOf(body)| - 1])
    ensures TrailersOf(Trimmed(Split(Print(body, trailers), '\n'))) == AsMap(trailers)
  {
    hide ParseTrailer, Split, Trim, Printable, PrintTrailer, TrailersOf;
    LinesOfSplit(body);
    if trailers == [] {
      var lines := LinesOf(body);
      assert lines == lines[..|lines| - 1] + [lines[|lines| - 1]];
      TrailersStep(lines[..|lines| - 1], lines[|lines| - 1]);
    } else {
      var init, last := trailers[..|trailers| - 1], trailers[|trailers| - 1];
      PrintedTrailers(body, init);
      var line := PrintTrailer(last);
      PrintedIsALine(last);
      ParsePrinted(last);
      assert '\n' !in line by { assert forall i :: 0 <= i < |line| ==> !IsLineTerminator(line[i]); }
      SplitLast(Print(body, init), '\n', line);
      TrimTrimmed(line);
      var before := Split(Print(body, init), '\n');
      assert Print(body, trailers) == Print(body, init) + ['\n'] + line;
      assert Trimmed(before + [line]) == Trimmed(before) + [line];
      TrailersStep(Trimmed(before), line);
    }
  }

  /** ROUND TRIP. Trailers printed after a body whose last line is no trailer parse
      back to their map, with either line ending. */
  lemma PrintThenParse(body: string, trailers: seq<Trailer>)
    requires forall i :: 0 <= i < |trailers| ==> Printable(trailers[i])
    requires !Neutral(LinesOf(body)[|LinesOf(body)| - 1])
    ensures TrailersOf(LinesOf(Print(body, trailers))) == AsMap(trailers)
    ensures TrailersOf(LinesOf(ToCrlf(Print(body, trailers)))) == AsMap(trailers)
  {
    PrintedTrailers(body, trailers);
    LinesOfSplit(Print(body, trailers));
    LineEndingsDoNotMatter(Print(body, trailers));
  }

  /* ---- what a trailer line is ---- */

  predicate IsKey(key: string) {
    && key != "" && (('A' <= key[0] <= 'Z') || ('a' <= key[0] <= 'z'))
    && forall i :: 0 <= i < |key| ==>
         ('A' <= key[i] <= 'Z') || ('a' <= key[i] <= 'z') || ('0' <= key[i] <= '9') || key[i] == '-'
  }

  predicate AreBlanks(s: string) {
    forall i :: 0 <= i < |s| ==> s[i] == ' ' || s[i] == '\t'
  }

  /** A key, a colon, blanks, and the rest of one line, which starts with no blank. */
  predicate IsTrailerLine(line: string, key: string, blanks: string, rest: string) {
    && IsKey(key) && AreBlanks(blanks) && rest != "" && OneLine(rest) && rest[0] != ' ' && rest[0] != '\t'
    && line == key + ":" + blanks + rest
  }

  lemma {:induction false} SkipAll(blanks: string, rest: string)
    requires AreBlanks(blanks) && (rest == "" || (rest[0] != ' ' && rest[0] != '\t'))
    ensures SkipBlanks(blanks + rest) == rest
  {
    if blanks == "" {
      assert blanks + rest == rest;
    } else {
      assert (blanks + rest)[1..] == blanks[1..] + rest;
      SkipAll(blanks[1..], rest);
    }
  }

  lemma {:induction false} BlanksOf(s: string) returns (blanks: string)
    ensures AreBlanks(blanks) && s == blanks + SkipBlanks(s)
  {
    if s != "" && (s[0] == ' ' || s[0] == '\t') {
      var more := BlanksOf(s[1..]);
      blanks := [s[0]] + more;
      assert s == [s[0]] + s[1..];
    } else {
      blanks := "";
    }
  }

  /** EXACT LINE. A line reads as a trailer exactly when it has that form, with the key
      and the trimmed rest. */
  lemma TrailerLineReads(line: string, key: string, blanks: string, rest: string)
    requires IsTrailerLine(line, key, blanks, rest)
    ensures ParseTrailer(line) == Some((key, Trim(rest)))
  {
    hide Trim, SkipBlanks, KeyLength, OneLine;
    assert line == key + (":" + blanks + rest);
    ColonIsNoKeyChar();
    KeyLengthIs(key, ":" + blanks + rest);
    assert line[..|key|] == key && line[|key|] == ':' && line[|key| + 1..] == blanks + rest;
    SkipAll(blanks, rest);
  }

  lemma OnlyTrailerLinesRead(line: string) returns (key: string, blanks: string, rest: string)
    requires ParseTrailer(line).Some?
    ensures IsTrailerLine(line, key, blanks, rest)
    ensures ParseTrailer(line) == Some((key, Trim(rest)))
  {
    hide Trim, OneLine;
    var n := KeyLength(line);
    key := line[..n];
    rest := SkipBlanks(line[n + 1..]);
    blanks := BlanksOf(line[n + 1..]);
    hide SkipBlanks, KeyLength;
    assert line == line[..n] + [line[n]] + line[n + 1..];
    assert line == key + ":" + blanks + rest;
  }
}
