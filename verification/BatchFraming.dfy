/** The byte formats that the generated-file verifier reads: `git ls-tree -rz`
    listings and the length-framed output of `git cat-file --batch`. */
module BatchFraming {
  import opened Common
  import opened PythonText

  newtype Byte = b: int | 0 <= b < 256

  type Bytes = seq<Byte>

  const NUL: Byte := 0
  const TAB: Byte := 9
  const NEWLINE: Byte := 10
  const SPACE: Byte := 32
  const BLOB: Bytes := [98, 108, 111, 98]
  const COMMIT: Bytes := [99, 111, 109, 109, 105, 116]
  const MODE_FILE: Bytes := [49, 48, 48, 54, 52, 52]
  const MODE_EXECUTABLE: Bytes := [49, 48, 48, 55, 53, 53]

  /* ---- text of bytes ---- */

  predicate IsBlank(b: Byte) {
    9 <= b <= 13 || b == SPACE
  }

  predicate IsToken(bytes: Bytes) {
    bytes != [] && forall i :: 0 <= i < |bytes| ==> !IsBlank(bytes[i])
  }

  function TokenLength(line: Bytes): (n: nat)
    ensures n <= |line| && (n < |line| ==> IsBlank(line[n]))
    ensures forall i :: 0 <= i < n ==> !IsBlank(line[i])
  {
    if line == [] || IsBlank(line[0]) then 0 else 1 + TokenLength(line[1..])
  }

  /** `line.split()`. */
  function Tokens(line: Bytes): seq<Bytes>
    decreases |line|
  {
    if line == [] then []
    else if IsBlank(line[0]) then Tokens(line[1..])
    else [line[..TokenLength(line)]] + Tokens(line[TokenLength(line)..])
  }

  lemma {:induction false} TokenLengthIs(token: Bytes, rest: Bytes)
    requires forall i :: 0 <= i < |token| ==> !IsBlank(token[i])
    requires rest == [] || IsBlank(rest[0])
    ensures TokenLength(token + rest) == |token|
  {
    if token != [] {
      assert (token + rest)[1..] == token[1..] + rest;
      TokenLengthIs(token[1..], rest);
    } else {
      assert token + rest == rest;
    }
  }

  lemma TokensOf(token: Bytes, blank: Byte, rest: Bytes)
    requires IsToken(token) && IsBlank(blank)
    ensures Tokens(token + [blank] + rest) == [token] + Tokens(rest)
  {
    var line := token + [blank] + rest;
    assert line == token + ([blank] + rest);
    TokenLengthIs(token, [blank] + rest);
    assert line[|token|..] == [blank] + rest && line[..|token|] == token;
    assert ([blank] + rest)[1..] == rest;
  }

  lemma TokensOfLast(token: Bytes)
    requires IsToken(token)
    ensures Tokens(token) == [token]
  {
    assert token + [] == token;
    TokenLengthIs(token, []);
    assert token[|token|..] == [];
  }

  /** Three tokens with a blank after each of the first two. */
  lemma ThreeTokens(a: Bytes, b: Bytes, c: Bytes, line: Bytes)
    requires IsToken(a) && IsToken(b) && IsToken(c)
    requires line == a + [SPACE] + b + [SPACE] + c || line == a + [SPACE] + b + [SPACE] + c + [NEWLINE]
    ensures Tokens(line) == [a, b, c]
  {
    var last := if line == a + [SPACE] + b + [SPACE] + c then c else c + [NEWLINE];
    assert line == a + [SPACE] + (b + [SPACE] + last);
    TokensOf(a, SPACE, b + [SPACE] + last);
    TokensOf(b, SPACE, last);
    if last == c {
      TokensOfLast(c);
    } else {
      TokensOf(c, NEWLINE, []);
      assert c + [NEWLINE] + [] == c + [NEWLINE];
    }
    hide Tokens;
  }

  function Text(bytes: Bytes): string {
    seq(|bytes|, i requires 0 <= i < |bytes| => bytes[i] as int as char)
  }

  function Ascii(text: string): Bytes
    requires forall c :: c in text ==> IsDigit(c)
  {
    seq(|text|, i requires 0 <= i < |text| => (assert text[i] in text; (48 + DigitValue(text[i])) as Byte))
  }

  /** The bytes of `str(n)`. */
  function SizeToken(n: nat): Bytes {
    Ascii(Decimal(n))
  }

  lemma SizeTokenReads(n: nat)
    ensures IsToken(SizeToken(n)) && ToInt(Text(SizeToken(n))) == Some(n)
  {
    ToIntDecimal(n);
    var digits := Decimal(n);
    hide ToInt, Decimal;
    forall i | 0 <= i < |digits| ensures IsDigit(digits[i]) { assert digits[i] in digits; }
    assert Text(SizeToken(n)) == digits;
  }

  /* ---- the batch stream ---- */

  /** The length of the line that starts a stream, with its newline if it has one. */
  function LineLength(stream: Bytes): (n: nat)
    ensures n <= |stream| && (stream != [] ==> n > 0)
    ensures forall i :: 0 <= i < n - 1 ==> stream[i] != NEWLINE
    ensures n < |stream| ==> stream[n - 1] == NEWLINE
  {
    if stream == [] then 0
    else if stream[0] == NEWLINE then 1
    else 1 + LineLength(stream[1..])
  }

  /** `stream.read(size)`: a negative size reads everything. */
  function Available(stream: Bytes, size: int): nat {
    if size < 0 || size > |stream| then |stream| else size
  }

  /** A stream with a read position. */
  class ByteStream {
    const data: Bytes
    var position: nat

    constructor (data: Bytes)
      ensures this.data == data && position == 0
    {
      this.data := data;
      position := 0;
    }

    ghost predicate Valid() reads this { position <= |data| }

    ghost function Rest(): Bytes reads this requires Valid() { data[position..] }

    method ReadLine() returns (line: Bytes)
      requires Valid()
      modifies this
      ensures Valid()
      ensures line == old(Rest())[..LineLength(old(Rest()))] && Rest() == old(Rest())[LineLength(old(Rest()))..]
    {
      line := data[position..][..LineLength(data[position..])];
      position := position + |line|;
    }

    method Read(size: int) returns (content: Bytes)
      requires Valid()
      modifies this
      ensures Valid()
      ensures content == old(Rest())[..Available(old(Rest()), size)]
      ensures Rest() == old(Rest())[Available(old(Rest()), size)..]
    {
      var n := if size < 0 || size > |data| - position then |data| - position else size;
      content := data[position..position + n];
      position := position + n;
    }
  }

  /* ---- one frame ---- */

  /** What the verifier reads for one object: its content and the rest of the
      stream. None stands for the raised ValueError. */
  function ReadFrame(stream: Bytes, oid: Bytes): Option<(Bytes, Bytes)> {
    var line, rest := stream[..LineLength(stream)], stream[LineLength(stream)..];
    var tokens := Tokens(line);
    if |tokens| != 3 || tokens[0] != oid || tokens[1] != BLOB then None
    else
      match ToInt(Text(tokens[2]))
      case None => None
      case Some(size) =>
        var n := Available(rest, size);
        var content, tail := rest[..n], rest[n..];
        if |content| != size || tail[..Available(tail, 1)] != [NEWLINE] then None
        else Some((content, tail[1..]))
  }

  /** The contents for a list of objects, in order. */
  function ReadFrames(stream: Bytes, oids: seq<Bytes>): Option<seq<Bytes>> {
    if oids == [] then Some([])
    else
      match ReadFrame(stream, oids[0])
      case None => None
      case Some((content, rest)) =>
        match ReadFrames(rest, oids[1..])
        case None => None
        case Some(contents) => Some([content] + contents)
  }

  /** `bytes` is one frame: a header line of three blank-separated tokens naming the
      object, `blob` and the size of the content, then the content and a newline. */
  ghost predicate IsFrameWith(bytes: Bytes, oid: Bytes, content: Bytes, header: Bytes, size: Bytes) {
    && NEWLINE !in header
    && Tokens(header + [NEWLINE]) == [oid, BLOB, size]
    && ToInt(Text(size)) == Some(|content|)
    && bytes == header + [NEWLINE] + content + [NEWLINE]
  }

  ghost predicate IsFrame(bytes: Bytes, oid: Bytes, content: Bytes) {
    exists header, size :: IsFrameWith(bytes, oid, content, header, size)
  }

  /** The frame git prints. */
  function Frame(oid: Bytes, content: Bytes): Bytes {
    oid + [SPACE] + BLOB + [SPACE] + SizeToken(|content|) + [NEWLINE] + content + [NEWLINE]
  }

  lemma {:induction false} LineOf(header: Bytes, rest: Bytes)
    requires NEWLINE !in header
    ensures LineLength(header + [NEWLINE] + rest) == |header| + 1
  {
    var stream := header + [NEWLINE] + rest;
    if header != [] {
      assert stream[1..] == header[1..] + [NEWLINE] + rest;
      LineOf(header[1..], rest);
    }
  }

  lemma PrintedFrameIsFrame(oid: Bytes, content: Bytes)
    requires IsToken(oid)
    ensures IsFrame(Frame(oid, content), oid, content)
  {
    var size := SizeToken(|content|);
    var header := oid + [SPACE] + BLOB + [SPACE] + size;
    SizeTokenReads(|content|);
    hide SizeToken, ToInt;
    ThreeTokens(oid, BLOB, size, header + [NEWLINE]);
    forall i | 0 <= i < |header| ensures header[i] != NEWLINE { }
    hide Tokens;
    assert IsFrameWith(Frame(oid, content), oid, content, header, size);
  }

  /** Reading consumes exactly a frame: soundness and completeness of one step. */
  lemma FrameIsRead(frame: Bytes, oid: Bytes, content: Bytes, rest: Bytes)
    requires IsFrame(frame, oid, content)
    ensures ReadFrame(frame + rest, oid) == Some((content, rest))
  {
    hide Tokens, ToInt, Text;
    var header, size :| IsFrameWith(frame, oid, content, header, size);
    var stream, tail := frame + rest, content + [NEWLINE] + rest;
    assert stream == header + [NEWLINE] + tail;
    LineOf(header, tail);
    assert stream[..|header| + 1] == header + [NEWLINE] && stream[|header| + 1..] == tail;
    assert tail[..|content|] == content && tail[|content|..] == [NEWLINE] + rest;
    assert ([NEWLINE] + rest)[..1] == [NEWLINE] && ([NEWLINE] + rest)[1..] == rest;
  }

  lemma ReadIsFrame(stream: Bytes, oid: Bytes)
    requires ReadFrame(stream, oid).Some?
    ensures var (content, rest) := ReadFrame(stream, oid).value;
            exists frame :: IsFrame(frame, oid, content) && stream == frame + rest
  {
    hide Tokens, ToInt, Text;
    var (content, rest) := ReadFrame(stream, oid).value;
    var n := LineLength(stream);
    var line, tail := stream[..n], stream[n..];
    assert tail == content + [NEWLINE] + rest;
    assert stream[n - 1] == NEWLINE;
    var header, size := stream[..n - 1], Tokens(line)[2];
    assert line == header + [NEWLINE];
    var frame := header + [NEWLINE] + content + [NEWLINE];
    assert IsFrameWith(frame, oid, content, header, size);
    assert stream == frame + rest;
  }

  /* ---- the whole stream ---- */

  function Concat(frames: seq<Bytes>): Bytes {
    if frames == [] then [] else frames[0] + Concat(frames[1..])
  }

  ghost predicate AreFrames(frames: seq<Bytes>, oids: seq<Bytes>, contents: seq<Bytes>) {
    |frames| == |oids| == |contents| && forall i :: 0 <= i < |frames| ==> IsFrame(frames[i], oids[i], contents[i])
  }

  lemma {:induction false} FramesAreRead(frames: seq<Bytes>, oids: seq<Bytes>, contents: seq<Bytes>, rest: Bytes)
    requires AreFrames(frames, oids, contents)
    ensures ReadFrames(Concat(frames) + rest, oids) == Some(contents)
  {
    hide IsFrame, ReadFrame;
    if frames != [] {
      assert Concat(frames) + rest == frames[0] + (Concat(frames[1..]) + rest);
      FrameIsRead(frames[0], oids[0], contents[0], Concat(frames[1..]) + rest);
      FramesAreRead(frames[1..], oids[1..], contents[1..], rest);
      assert contents == [contents[0]] + contents[1..];
    }
  }

  lemma {:induction false} ReadAreFrames(stream: Bytes, oids: seq<Bytes>) returns (frames: seq<Bytes>)
    requires ReadFrames(stream, oids).Some?
    ensures AreFrames(frames, oids, ReadFrames(stream, oids).value) && Concat(frames) <= stream
    decreases |oids|
  {
    hide IsFrame, ReadFrame;
    if oids == [] {
      frames := [];
    } else {
      var (content, rest) := ReadFrame(stream, oids[0]).value;
      ReadIsFrame(stream, oids[0]);
      var frame :| IsFrame(frame, oids[0], content) && stream == frame + rest;
      var more := ReadAreFrames(rest, oids[1..]);
      frames := [frame] + more;
      assert frames[1..] == more;
    }
  }

  /** The reader succeeds with some contents exactly when the stream starts with
      frames of the listed objects that hold these contents. */
  lemma ReaderExactly(stream: Bytes, oids: seq<Bytes>, contents: seq<Bytes>)
    ensures ReadFrames(stream, oids) == Some(contents) <==>
            exists frames :: AreFrames(frames, oids, contents) && Concat(frames) <= stream
  {
    hide AreFrames, ReadFrames, Concat;
    if ReadFrames(stream, oids) == Some(contents) {
      var frames := ReadAreFrames(stream, oids);
    }
    if exists frames :: AreFrames(frames, oids, contents) && Concat(frames) <= stream {
      var frames :| AreFrames(frames, oids, contents) && Concat(frames) <= stream;
      FramesAreRead(frames, oids, contents, stream[|Concat(frames)|..]);
      assert stream == Concat(frames) + stream[|Concat(frames)|..];
    }
  }

  function Printed(oids: seq<Bytes>, contents: seq<Bytes>): seq<Bytes>
    requires |oids| == |contents|
  {
    seq(|oids|, i requires 0 <= i < |oids| => Frame(oids[i], contents[i]))
  }

  /** ROUND TRIP. Whatever the blobs hold, reading the printed frames gives them back
      in order, also when more bytes follow. */
  lemma FramingRoundTrip(oids: seq<Bytes>, contents: seq<Bytes>, rest: Bytes)
    requires |oids| == |contents| && forall i :: 0 <= i < |oids| ==> IsToken(oids[i])
    ensures ReadFrames(Concat(Printed(oids, contents)) + rest, oids) == Some(contents)
  {
    hide Frame, IsFrame, ReadFrames, Concat;
    var frames := Printed(oids, contents);
    forall i | 0 <= i < |frames| ensures IsFrame(frames[i], oids[i], contents[i]) {
      PrintedFrameIsFrame(oids[i], contents[i]);
    }
    FramesAreRead(frames, oids, contents, rest);
  }

  /** The reader also takes headers that git does not print, here a size with a
      leading zero: a success does not mean that the frame is the printed one. */
  lemma LooseHeaderIsRead(oid: Bytes)
    requires IsToken(oid)
    ensures var loose := oid + [SPACE] + BLOB + [SPACE] + [48, 48] + [NEWLINE] + [] + [NEWLINE];
            ReadFrames(loose, [oid]) == Some([[]]) && loose != Frame(oid, [])
  {
    var size: Bytes := [48, 48];
    var header := oid + [SPACE] + BLOB + [SPACE] + size;
    var frame := header + [NEWLINE] + [] + [NEWLINE];
    assert ToInt(Text(size)) == Some(0) by {
      assert Text(size) == "00" && "00"[..1] == "0";
    }
    assert |SizeToken(0)| == 1 by { assert Decimal(0) == "0"; }
    hide ToInt, Text, ReadFrame, SizeToken;
    ThreeTokens(oid, BLOB, size, header + [NEWLINE]);
    hide Tokens;
    forall i | 0 <= i < |header| ensures header[i] != NEWLINE { }
    assert IsFrameWith(frame, oid, [], header, size);
    hide IsFrameWith;
    FramesAreRead([frame], [oid], [[]], []);
    assert Concat([frame]) + [] == frame;
  }

  /** The byte constants spell the words of the formats. */
  lemma ConstantsSpell()
    ensures Text(BLOB) == "blob" && Text(COMMIT) == "commit"
    ensures Text(MODE_FILE) == "100644" && Text(MODE_EXECUTABLE) == "100755"
    ensures Text([TAB]) == "\t" && Text([NEWLINE]) == "\n" && Text([SPACE]) == " " && Text([NUL]) == "\0"
  {
  }
}
