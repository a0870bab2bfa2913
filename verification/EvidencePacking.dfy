/** Byte budgets of the context snapshot: `compact` and the packing of changed files. */
module EvidencePacking {

  /* ---- UTF-8 sizes ---- */

  /** `Buffer.byteLength` of one code point. */
  function PointBytes(c: char): nat {
    if c < '\U{0080}' then 1 else if c < '\U{0800}' then 2 else if c < '\U{10000}' then 3 else 4
  }

  function ByteLength(s: string): nat {
    if s == "" then 0 else ByteLength(s[..|s| - 1]) + PointBytes(s[|s| - 1])
  }

  lemma {:induction false} ByteLengthConcat(a: string, b: string)
    ensures ByteLength(a + b) == ByteLength(a) + ByteLength(b)
  {
    if b == "" {
      assert a + b == a;
    } else {
      assert (a + b)[..|a + b| - 1] == a + b[..|b| - 1];
      ByteLengthConcat(a, b[..|b| - 1]);
    }
  }

  lemma {:induction false} PrefixBytes(s: string, i: nat, j: nat)
    requires i <= j <= |s|
    ensures ByteLength(s[..i]) + (j - i) <= ByteLength(s[..j])
    decreases j
  {
    if i < j {
      PrefixBytes(s, i, j - 1);
      assert s[..j][..j - 1] == s[..j - 1];
    }
  }

  /* ---- compact ---- */

  /** `k` code points are as many as fit. */
  ghost predicate Longest(value: string, max: nat, k: nat) {
    k <= |value| && forall j: nat :: j <= |value| ==> (j <= k <==> ByteLength(value[..j]) <= max)
  }

  /** `compact(value, max)`: the longest prefix of whole code points within the budget. */
  method Compact(value: string, max: nat) returns (result: string)
    ensures result <= value && Longest(value, max, |result|)
  {
    result := "";
    var bytes := 0;
    assert value[..0] == "";
    for i := 0 to |value|
      invariant result == value[..i] && bytes == ByteLength(value[..i]) <= max
    {
      assert value[..i + 1][..i] == value[..i];
      bytes := bytes + PointBytes(value[i]);
      if bytes > max {
        OverBudget(value, max, i);
        return;
      }
      result := result + [value[i]];
    }
    assert value[..|value|] == value;
    UnderBudget(value, max, |value|);
  }

  lemma UnderBudget(value: string, max: nat, k: nat)
    requires k <= |value| && ByteLength(value[..k]) <= max
    ensures forall j: nat :: j <= k ==> ByteLength(value[..j]) <= max
  {
    forall j: nat | j <= k ensures ByteLength(value[..j]) <= max { PrefixBytes(value, j, k); }
  }

  lemma OverBudget(value: string, max: nat, k: nat)
    requires k < |value| && ByteLength(value[..k]) <= max < ByteLength(value[..k + 1])
    ensures Longest(value, max, k)
  {
    UnderBudget(value, max, k);
    forall j: nat | k < j <= |value| ensures ByteLength(value[..j]) > max { PrefixBytes(value, k + 1, j); }
  }

  /** A truncation flag, which compares byte lengths, says exactly that something was
      dropped, and that is when the value exceeds the budget. */
  lemma FlagsAreExact(value: string, max: nat, result: string)
    requires result <= value && Longest(value, max, |result|)
    ensures ByteLength(value) > ByteLength(result) <==> result != value
    ensures result != value <==> ByteLength(value) > max
  {
    assert value[..|value|] == value;
    PrefixBytes(value, |result|, |value|);
    hide ByteLength;
    assert value[..|result|] == result;
    assert |value| <= |result| <==> ByteLength(value[..|value|]) <= max;
  }

  /* ---- packing ---- */

  const BUDGET := 2000

  function JoinComma(items: seq<string>): string {
    if items == [] then ""
    else if |items| == 1 then items[0]
    else JoinComma(items[..|items| - 1]) + "," + items[|items| - 1]
  }

  /** The serialized `primaryChange`: the fields before `files`, the serialized items
      and the flag. */
  function Serialize(prefix: string, files: seq<string>, truncated: bool): string {
    prefix + "[" + JoinComma(files) + "],\"truncated\":" + (if truncated then "true" else "false") + "}"
  }

  function Size(prefix: string, files: seq<string>, truncated: bool): nat {
    ByteLength(Serialize(prefix, files, truncated))
  }

  lemma AsciiLengths()
    ensures ByteLength("[") == 1 && ByteLength(",") == 1 && ByteLength("}") == 1
    ensures ByteLength("true") == 4 && ByteLength("false") == 5
  {
    assert "["[..0] == "" && ","[..0] == "" && "}"[..0] == "";
    assert "true"[..3] == "tru" && "tru"[..2] == "tr" && "tr"[..1] == "t" && "t"[..0] == "";
    assert "false"[..4] == "fals" && "fals"[..3] == "fal" && "fal"[..2] == "fa" && "fa"[..1] == "f" && "f"[..0] == "";
  }

  lemma SizeParts(prefix: string, files: seq<string>, truncated: bool)
    ensures Size(prefix, files, truncated) ==
            ByteLength(prefix) + ByteLength(JoinComma(files)) + ByteLength("],\"truncated\":") + 2 +
              if truncated then 4 else 5
  {
    AsciiLengths();
    var flag := if truncated then "true" else "false";
    hide ByteLength;
    ByteLengthConcat(prefix + "[" + JoinComma(files) + "],\"truncated\":" + flag, "}");
    ByteLengthConcat(prefix + "[" + JoinComma(files) + "],\"truncated\":", flag);
    ByteLengthConcat(prefix + "[" + JoinComma(files), "],\"truncated\":");
    ByteLengthConcat(prefix + "[", JoinComma(files));
    ByteLengthConcat(prefix, "[");
  }

  /** One more file adds its bytes, and a comma unless it is the first. */
  lemma SizeOfOneMore(prefix: string, files: seq<string>, item: string, truncated: bool)
    ensures Size(prefix, files + [item], truncated) ==
            Size(prefix, files, truncated) + ByteLength(item) + if files == [] then 0 else 1
  {
    SizeParts(prefix, files, truncated);
    SizeParts(prefix, files + [item], truncated);
    AsciiLengths();
    if files != [] {
      assert (files + [item])[..|files|] == files;
      ByteLengthConcat(JoinComma(files) + ",", item);
      ByteLengthConcat(JoinComma(files), ",");
    }
    hide ByteLength, Size;
  }

  lemma FlagSavesAByte(prefix: string, files: seq<string>)
    ensures Size(prefix, files, true) + 1 == Size(prefix, files, false)
  {
    SizeParts(prefix, files, true);
    SizeParts(prefix, files, false);
  }

  /** The test of the loop. */
  predicate Fits(prefix: string, files: seq<string>, item: string) {
    Size(prefix, files, false) + ByteLength(item) <= BUDGET
  }

  /** The number of items that the loop takes. */
  ghost predicate Taken(prefix: string, items: seq<string>, k: nat) {
    && k <= |items|
    && (forall i :: 0 <= i < k ==> Fits(prefix, items[..i], items[i]))
    && (k < |items| ==> !Fits(prefix, items[..k], items[k]))
  }

  function Larger(a: nat, b: nat): nat { if a > b then a else b }

  /** More files take more bytes, and at least a comma for each after the first. */
  lemma {:induction false} MoreFilesMoreBytes(prefix: string, items: seq<string>, i: nat, j: nat)
    requires i <= j <= |items|
    ensures Size(prefix, items[..i], false) <= Size(prefix, items[..j], false)
    ensures 1 <= i < j ==> Size(prefix, items[..i], false) < Size(prefix, items[..j], false)
    decreases j
  {
    hide Size, ByteLength;
    if i < j {
      MoreFilesMoreBytes(prefix, items, i, j - 1);
      assert items[..j] == items[..j - 1] + [items[j - 1]];
      SizeOfOneMore(prefix, items[..j - 1], items[j - 1], false);
    }
  }

  /** Serialized whole, the files are over the budget by exactly the one byte that the
      test does not see. */
  predicate OverByTheComma(prefix: string, items: seq<string>) {
    |items| >= 2 && Size(prefix, items, false) == BUDGET + 1
  }

  /** When the loop leaves files out, all files together are over the budget by more
      than a byte, or there is only one of them. */
  lemma TruncationIsLarger(prefix: string, items: seq<string>, k: nat)
    requires Taken(prefix, items, k) && k < |items|
    ensures !OverByTheComma(prefix, items)
  {
    hide Size, ByteLength;
    assert items[..k + 1] == items[..k] + [items[k]] && items[..|items|] == items;
    SizeOfOneMore(prefix, items[..k], items[k], false);
    MoreFilesMoreBytes(prefix, items, k + 1, |items|);
  }

  lemma UpToTheLast(prefix: string, items: seq<string>, k: nat)
    requires Taken(prefix, items, k) && k > 0
    ensures Size(prefix, items[..k], false) <= if k == 1 then BUDGET else BUDGET + 1
    ensures k >= 2 ==> Size(prefix, items[..k], false) > Size(prefix, [], false)
  {
    hide Size, ByteLength;
    assert Fits(prefix, items[..k - 1], items[k - 1]);
    assert items[..k] == items[..k - 1] + [items[k - 1]] && items[..0] == [];
    SizeOfOneMore(prefix, items[..k - 1], items[k - 1], false);
    MoreFilesMoreBytes(prefix, items, 0, 1);
    if k >= 2 {
      MoreFilesMoreBytes(prefix, items, 1, k);
    }
  }

  /** EXACT BUDGET. The packed text keeps the budget, or its initial size when that is
      larger, unless the files serialized whole are over by the one uncounted comma. */
  lemma BudgetExceededExactly(prefix: string, items: seq<string>, files: seq<string>, truncated: bool)
    requires files <= items && Taken(prefix, items, |files|) && (truncated <==> files != items)
    ensures Size(prefix, files, truncated) > Larger(Size(prefix, [], false), BUDGET) <==> OverByTheComma(prefix, items)
  {
    hide Size, ByteLength, Taken;
    var k := |files|;
    assert files == items[..k] && items[..|items|] == items;
    FlagSavesAByte(prefix, files);
    if k > 0 {
      UpToTheLast(prefix, items, k);
    }
    if k < |items| {
      TruncationIsLarger(prefix, items, k);
    }
  }

  /** The packing loop: a prefix of the files, the flag exactly when it is proper, and
      at most one byte over the budget, because the test does not count the comma. */
  method Pack(prefix: string, items: seq<string>) returns (files: seq<string>, truncated: bool)
    ensures files <= items && Taken(prefix, items, |files|)
    ensures truncated <==> files != items
    ensures Size(prefix, files, truncated) <= Larger(Size(prefix, [], false), BUDGET + 1)
    ensures Size(prefix, files, truncated) > Larger(Size(prefix, [], false), BUDGET) <==> OverByTheComma(prefix, items)
  {
    hide Size, ByteLength, OverByTheComma;
    files, truncated := [], false;
    for i := 0 to |items|
      invariant files == items[..i]
      invariant forall k :: 0 <= k < i ==> Fits(prefix, items[..k], items[k])
      invariant Size(prefix, files, false) <= Larger(Size(prefix, [], false), BUDGET + 1)
    {
      if Size(prefix, files, false) + ByteLength(items[i]) > BUDGET {
        truncated := true;
        FlagSavesAByte(prefix, files);
        BudgetExceededExactly(prefix, items, files, truncated);
        return;
      }
      SizeOfOneMore(prefix, files, items[i], false);
      files := files + [items[i]];
    }
    BudgetExceededExactly(prefix, items, files, truncated);
  }

  /* ---- an input that exceeds the budget ---- */

  predicate Ascii(s: string) {
    forall i :: 0 <= i < |s| ==> s[i] < '\U{0080}'
  }

  lemma {:induction false} AsciiBytes(s: string)
    requires Ascii(s)
    ensures ByteLength(s) == |s|
  {
    if s != "" {
      AsciiBytes(s[..|s| - 1]);
    }
  }

  function Repeat(c: char, n: nat): string {
    seq(n, i requires 0 <= i < n => c)
  }

  const HEAD := Repeat('a', 40)
  const BASE := Repeat('b', 40)

  const STATUS := "{\"status\":\"available\",\"primaryHead\":\""
  const MERGE_BASE := "\",\"mergeBase\":\""
  const COMMAND := "\",\"fullEvidenceCommand\":\"node "
  const ARGUMENTS := "bin/primary-change-context.mjs ours/ci 1 "
  const FILES := "\",\"files\":"

  /** The fields of an available primary change before its files. */
  function ExamplePrefix(): string {
    STATUS + HEAD + (MERGE_BASE + BASE) + (COMMAND + ARGUMENTS + HEAD) + FILES
  }

  /** A binary file: no patch, hence no regions. */
  function ExampleFile(name: char): string {
    "{\"path\":\"" + Repeat(name, 177) + "\",\"regionCount\":0,\"hunks\":[]}"
  }

  const EXAMPLE_NAMES := "abcdefgh"

  function ExampleFiles(): seq<string> {
    seq(|EXAMPLE_NAMES|, i requires 0 <= i < |EXAMPLE_NAMES| => ExampleFile(EXAMPLE_NAMES[i]))
  }

  lemma FieldBytes()
    ensures ByteLength(STATUS) == 37 && ByteLength(MERGE_BASE) == 15 && ByteLength(FILES) == 10
  {
    hide ByteLength;
    AsciiBytes(STATUS);
    AsciiBytes(MERGE_BASE);
    AsciiBytes(FILES);
  }

  lemma CommandBytes()
    ensures ByteLength(COMMAND) == 30
  {
    hide ByteLength;
    AsciiBytes(COMMAND);
  }

  lemma ArgumentBytes()
    ensures ByteLength(ARGUMENTS) == 41
  {
    hide ByteLength;
    AsciiBytes(ARGUMENTS);
  }

  lemma CommitBytes()
    ensures ByteLength(HEAD) == 40 && ByteLength(BASE) == 40
  {
    hide ByteLength;
    AsciiBytes(HEAD);
    AsciiBytes(BASE);
  }

  lemma ExamplePrefixBytes()
    ensures ByteLength(ExamplePrefix()) == 253
  {
    FieldBytes();
    CommandBytes();
    ArgumentBytes();
    CommitBytes();
    hide ByteLength, STATUS, MERGE_BASE, COMMAND, ARGUMENTS, FILES, HEAD, BASE;
    ByteLengthConcat(STATUS + HEAD + (MERGE_BASE + BASE) + (COMMAND + ARGUMENTS + HEAD), FILES);
    ByteLengthConcat(STATUS + HEAD + (MERGE_BASE + BASE), COMMAND + ARGUMENTS + HEAD);
    ByteLengthConcat(STATUS + HEAD, MERGE_BASE + BASE);
    ByteLengthConcat(STATUS, HEAD);
    ByteLengthConcat(MERGE_BASE, BASE);
    ByteLengthConcat(COMMAND + ARGUMENTS, HEAD);
    ByteLengthConcat(COMMAND, ARGUMENTS);
  }

  lemma ExampleFileBytes(name: char)
    requires name < '\U{0080}'
    ensures ByteLength(ExampleFile(name)) == 215
  {
    hide ByteLength;
    AsciiBytes(ExampleFile(name));
  }

  /** The first files of the example take 215 bytes each and a comma between two. */
  lemma {:induction false} ExampleBytes(k: nat)
    requires k <= 8
    ensures Size(ExamplePrefix(), ExampleFiles()[..k], false) == 274 + 215 * k + if k == 0 then 0 else k - 1
  {
    hide Size, ByteLength, ExamplePrefix, ExampleFile;
    var prefix, items := ExamplePrefix(), ExampleFiles();
    if k == 0 {
      assert items[..0] == [];
      ExampleEmptyBytes();
    } else {
      ExampleBytes(k - 1);
      assert items[..k] == items[..k - 1] + [items[k - 1]];
      SizeOfOneMore(prefix, items[..k - 1], items[k - 1], false);
      assert EXAMPLE_NAMES[k - 1] < '\U{0080}';
      ExampleFileBytes(EXAMPLE_NAMES[k - 1]);
    }
  }

  lemma ExampleEmptyBytes()
    ensures Size(ExamplePrefix(), [], false) == 274
  {
    hide Size, ByteLength, ExamplePrefix;
    ExamplePrefixBytes();
    SizeParts(ExamplePrefix(), [], false);
    AsciiBytes("],\"truncated\":");
    assert ByteLength("") == 0 by { AsciiBytes(""); }
  }

  /** The bound of 2001 bytes is reached: eight binary files with paths of 177 bytes
      are all packed. */
  lemma BudgetExceededByTheComma()
    ensures Taken(ExamplePrefix(), ExampleFiles(), 8) && ExampleFiles()[..8] == ExampleFiles()
    ensures OverByTheComma(ExamplePrefix(), ExampleFiles()) && Size(ExamplePrefix(), ExampleFiles(), false) == 2001
  {
    var prefix, items := ExamplePrefix(), ExampleFiles();
    hide Size, ByteLength, ExamplePrefix, ExampleFile;
    assert items[..8] == items;
    ExampleBytes(8);
    forall i | 0 <= i < 8 ensures Fits(prefix, items[..i], items[i]) {
      ExampleBytes(i);
      assert EXAMPLE_NAMES[i] < '\U{0080}';
      ExampleFileBytes(EXAMPLE_NAMES[i]);
    }
  }

  /** The sizes of UTF-8 grow with the code point and change at exactly three places. */
  lemma PointBytesExactly(c: char)
    ensures PointBytes(c) == 1 <==> c <= '\U{007F}'
    ensures PointBytes(c) == 2 <==> '\U{0080}' <= c <= '\U{07FF}'
    ensures PointBytes(c) == 3 <==> '\U{0800}' <= c <= '\U{FFFF}'
    ensures PointBytes(c) == 4 <==> '\U{10000}' <= c
  {
  }
}
