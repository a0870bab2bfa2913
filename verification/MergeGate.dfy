/** The fail-closed arm/disarm gate: one bounded read, one parse, and the decision
    for each merge path. */
module MergeGate {
  import opened Common

  type Bytes = seq<bv8>

  const GATE_VERSION := 1.0
  const MAX_GATE_BYTES := 64 * 1024
  const MERGE_PATH_IDS: seq<string> := ["hammer", "daemon-clean", "python-backstop"]

  datatype Code =
    | Armed | DisarmedPath | DisarmedMaster | GateMissing | GateUnreadable | GateOversize | GateMalformed
    | GateVersionUnsupported | PathAbsent | UnknownPath

  predicate FailClosed(code: Code) {
    code in {GateMissing, GateUnreadable, GateOversize, GateMalformed, GateVersionUnsupported, PathAbsent, UnknownPath}
  }

  datatype Decision = Decision(path: string, allowed: bool, code: Code, failClosed: bool)

  /* ---- reading ---- */

  /** What opening the path finds. The reported size and the bytes that reading
      delivers may differ when the file changes meanwhile. */
  datatype File = Missing | Unopenable | Opened(size: nat, content: Bytes)

  /** An open descriptor: its k-th read delivers at most `limit(k)` bytes, but at
      least one while there are any, or fails when `fails(k)` holds. */
  class Descriptor {
    const content: Bytes
    const limit: nat -> nat
    const fails: nat -> bool
    var position: nat
    var readCount: nat

    ghost predicate Valid() reads this { position <= |content| }

    constructor (content: Bytes, limit: nat -> nat, fails: nat -> bool)
      ensures Valid() && this.content == content && this.limit == limit && this.fails == fails && position == 0 &&
              readCount == 0
    {
      this.content, this.limit, this.fails, position, readCount := content, limit, fails, 0, 0;
    }

    /** `os.read(fd, n)`; None stands for OSError. */
    method Read(n: nat) returns (chunk: Option<Bytes>)
      requires Valid() && n > 0
      modifies this
      ensures Valid() && old(position) <= position
      ensures chunk.None? <==> fails(old(readCount))
      ensures chunk.Some? ==> |chunk.value| <= n && chunk.value == content[old(position)..position]
      ensures chunk.Some? && chunk.value == [] ==> position == |content|
    {
      var k := readCount;
      readCount := readCount + 1;
      if fails(k) { return None; }
      var left := |content| - position;
      var wanted := if limit(k) == 0 then 1 else limit(k);
      var m := if left < n then left else n;
      if wanted < m { m := wanted; }
      chunk := Some(content[position..position + m]);
      position := position + m;
    }
  }

  /** The text, or the code that stopped the read. */
  datatype Text = Text(text: string) | Stopped(code: Code)

  /** `content[..size]` as far as there is content. */
  function Upto(content: Bytes, size: nat): Bytes {
    if size < |content| then content[..size] else content
  }

  /** What a read without I/O errors gives, whatever the sizes of its chunks. */
  function TextOf(file: File, maxBytes: nat, decode: Bytes -> Option<string>): Text {
    match file
    case Missing => Stopped(GateMissing)
    case Unopenable => Stopped(GateUnreadable)
    case Opened(size, content) =>
      if size > maxBytes then Stopped(GateOversize)
      else
        match decode(Upto(content, size))
        case None => Stopped(GateMalformed)
        case Some(text) => Text(text)
  }

  /** `read_gate_bytes`. The answer does not depend on how the bytes arrive; an I/O
      error makes it unreadable and nothing else. */
  method ReadGate(file: File, maxBytes: nat, limit: nat -> nat, fails: nat -> bool, decode: Bytes -> Option<string>)
    returns (read: Text)
    ensures read == TextOf(file, maxBytes, decode) || (read == Stopped(GateUnreadable) && exists k :: fails(k))
    ensures (forall k :: !fails(k)) ==> read == TextOf(file, maxBytes, decode)
  {
    if file.Missing? { return Stopped(GateMissing); }
    if file.Unopenable? { return Stopped(GateUnreadable); }
    if file.size > maxBytes { return Stopped(GateOversize); }
    var fd := new Descriptor(file.content, limit, fails);
    var chunks: Bytes, remaining := [], file.size;
    while remaining > 0
      invariant fresh(fd) && fd.Valid() && fd.content == file.content && fd.fails == fails
      invariant remaining + fd.position == file.size
      invariant chunks == file.content[..fd.position] && fd.position <= file.size
      decreases remaining
    {
      ghost var k := fd.readCount;
      var chunk := fd.Read(remaining);
      if chunk.None? {
        assert fails(k);
        return Stopped(GateUnreadable);
      }
      if chunk.value == [] {
        assert chunks == file.content[..fd.position] && fd.position == |file.content|;
        break;
      }
      chunks := chunks + chunk.value;
      remaining := remaining - |chunk.value|;
    }
    assert file.content[..|file.content|] == file.content;
    assert chunks == Upto(file.content, file.size);
    var text := decode(chunks);
    return if text.None? then Stopped(GateMalformed) else Text(text.value);
  }

  /* ---- parsing ---- */

  /** The fields of a well-formed gate document, or the refusal code. */
  datatype Loaded = Document(fields: map<string, Value>) | Refused(code: Code)

  predicate HasBool(v: Value, key: string) {
    v.Obj? && Get(v.fields, key).Bool?
  }

  /** `parse_gate_document` on the parsed text. Null stands for a missing key. */
  function ParseGate(parsed: Option<Value>): Loaded {
    if parsed.None? || !parsed.value.Obj? then Refused(GateMalformed)
    else
      var fields := parsed.value.fields;
      if Get(fields, "gateVersion") != Num(GATE_VERSION) then Refused(GateVersionUnsupported)
      else if !HasBool(Get(fields, "master"), "armed") then Refused(GateMalformed)
      else if !Get(fields, "paths").Obj? then Refused(GateMalformed)
      else Document(fields)
  }

  /** `ArfGate.load` on what was read. */
  function Load(read: Text, loads: string -> Option<Value>): Loaded {
    match read
    case Stopped(code) => Refused(code)
    case Text(text) => ParseGate(loads(text))
  }

  /* ---- deciding ---- */

  function Refusal(path: string, code: Code): Decision {
    Decision(path, false, code, FailClosed(code))
  }

  /** `decide_from_document`. */
  function DecideFrom(fields: map<string, Value>, path: string): Decision
    requires HasBool(Get(fields, "master"), "armed") && Get(fields, "paths").Obj?
  {
    if path !in MERGE_PATH_IDS then Refusal(path, UnknownPath)
    else if Get(fields, "master").fields["armed"] == Bool(false) then Decision(path, false, DisarmedMaster, false)
    else
      var entry := Get(Get(fields, "paths").fields, path);
      if !HasBool(entry, "armed") then Refusal(path, PathAbsent)
      else
        var armed := Get(entry.fields, "armed").b;
        Decision(path, armed, if armed then Armed else DisarmedPath, false)
  }

  /** `ArfGate.decide` on a loaded document. */
  function Decide(loaded: Loaded, path: string): Decision
    requires loaded.Document? ==> HasBool(Get(loaded.fields, "master"), "armed") && Get(loaded.fields, "paths").Obj?
  {
    match loaded
    case Refused(code) => Refusal(path, code)
    case Document(fields) => DecideFrom(fields, path)
  }

  function DecideRead(read: Text, loads: string -> Option<Value>, path: string): Decision {
    Decide(Load(read, loads), path)
  }

  /** The document arms a merge path. */
  predicate Arms(v: Value, path: string) {
    && v.Obj?
    && Get(v.fields, "gateVersion") == Num(GATE_VERSION)
    && Get(v.fields, "master").Obj? && Get(Get(v.fields, "master").fields, "armed") == Bool(true)
    && Get(v.fields, "paths").Obj?
    && Get(Get(v.fields, "paths").fields, path).Obj?
    && Get(Get(Get(v.fields, "paths").fields, path).fields, "armed") == Bool(true)
  }

  /** FAIL CLOSED. A path is allowed exactly when it is a known merge path and the one
      text that was read parses to a version-1 document in which the master switch and
      the path are both boolean true. */
  lemma AllowedExactly(read: Text, loads: string -> Option<Value>, path: string)
    ensures DecideRead(read, loads, path).allowed <==>
            path in MERGE_PATH_IDS && read.Text? && loads(read.text).Some? && Arms(loads(read.text).value, path)
    ensures read.Text? ==> (DecideRead(read, loads, path).allowed <==> DecideRead(read, loads, path).code == Armed)
    ensures read.Stopped? && FailClosed(read.code) ==> DecideRead(read, loads, path).failClosed
  {
    if read.Text? && loads(read.text).Some? {
      ArmedDocument(loads(read.text).value, path);
    }
    hide DecideFrom, Arms;
  }

  lemma ArmedDocument(v: Value, path: string)
    ensures var decision := Decide(ParseGate(Some(v)), path);
            && (decision.allowed <==> path in MERGE_PATH_IDS && Arms(v, path))
            && (decision.allowed <==> decision.code == Armed)
  {
    hide FailClosed;
    var parsed := ParseGate(Some(v));
    if parsed.Document? {
      assert parsed.fields == v.fields &&
             Get(parsed.fields, "master").fields["armed"] == Get(Get(v.fields, "master").fields, "armed");
    }
  }

  /** The emergency stop overrides every entry, present or absent. */
  lemma MasterOverrides(fields: map<string, Value>, paths: map<string, Value>, path: string)
    requires HasBool(Get(fields, "master"), "armed") && Get(fields, "paths").Obj?
    requires Get(fields, "master").fields["armed"] == Bool(false) && path in MERGE_PATH_IDS
    ensures DecideFrom(fields["paths" := Obj(paths)], path) == Decision(path, false, DisarmedMaster, false)
  {
    assert Get(fields["paths" := Obj(paths)], "master") == Get(fields, "master");
  }

  /* ---- all paths at once ---- */

  /** A document that was loaded has the fields that deciding reads. */
  lemma LoadedIsReadable(read: Text, loads: string -> Option<Value>)
    ensures var loaded := Load(read, loads);
            loaded.Document? ==> HasBool(Get(loaded.fields, "master"), "armed") && Get(loaded.fields, "paths").Obj?
  {
  }

  /** `ArfGate.decide_all`: one load, and every path is decided as `decide` would
      decide it alone on the same read. */
  method DecideAll(read: Text, loads: string -> Option<Value>) returns (decisions: map<string, Decision>)
    ensures forall path :: path in decisions <==> path in MERGE_PATH_IDS
    ensures forall path :: path in decisions ==> decisions[path] == DecideRead(read, loads, path)
  {
    LoadedIsReadable(read, loads);
    hide Load, Decide;
    var loaded := Load(read, loads);
    decisions := map[];
    for i := 0 to |MERGE_PATH_IDS|
      invariant forall path :: path in decisions <==> path in MERGE_PATH_IDS[..i]
      invariant forall path :: path in decisions ==> decisions[path] == DecideRead(read, loads, path)
    {
      assert MERGE_PATH_IDS[..i + 1] == MERGE_PATH_IDS[..i] + [MERGE_PATH_IDS[i]];
      decisions := decisions[MERGE_PATH_IDS[i] := Decide(loaded, MERGE_PATH_IDS[i])];
    }
    assert MERGE_PATH_IDS[..|MERGE_PATH_IDS|] == MERGE_PATH_IDS;
  }

  const EXIT_ALLOWED := 0
  const EXIT_DISARMED := 3
  const EXIT_REFUSED := 4

  /** `exit_code_for`. */
  function ExitCode(decision: Decision): int {
    if decision.allowed then EXIT_ALLOWED else if decision.failClosed then EXIT_REFUSED else EXIT_DISARMED
  }

  /** The aggregate exit code: zero exactly when every path is armed, and the refusal
      code exactly when some path is refused rather than disarmed. */
  method AggregateExit(file: File, limit: nat -> nat, fails: nat -> bool, decode: Bytes -> Option<string>,
                       loads: string -> Option<Value>)
    returns (exit: int, ghost read: Text)
    ensures read == TextOf(file, MAX_GATE_BYTES, decode) || (read == Stopped(GateUnreadable) && exists k :: fails(k))
    ensures exit == EXIT_ALLOWED <==>
            forall i :: 0 <= i < |MERGE_PATH_IDS| ==> DecideRead(read, loads, MERGE_PATH_IDS[i]).allowed
    ensures exit == EXIT_REFUSED <==>
            exists i :: 0 <= i < |MERGE_PATH_IDS| &&
              ExitCode(DecideRead(read, loads, MERGE_PATH_IDS[i])) == EXIT_REFUSED
    ensures exit in {EXIT_ALLOWED, EXIT_DISARMED, EXIT_REFUSED}
  {
    hide DecideRead;
    var text := ReadGate(file, MAX_GATE_BYTES, limit, fails, decode);
    read := text;
    var decisions := DecideAll(text, loads);
    exit := EXIT_ALLOWED;
    for i := 0 to |MERGE_PATH_IDS|
      invariant exit in {EXIT_ALLOWED, EXIT_DISARMED, EXIT_REFUSED}
      invariant forall k :: 0 <= k < i ==> ExitCode(DecideRead(read, loads, MERGE_PATH_IDS[k])) <= exit
      invariant exit == EXIT_ALLOWED ||
                exists k :: 0 <= k < i && ExitCode(DecideRead(read, loads, MERGE_PATH_IDS[k])) == exit
    {
      var code := ExitCode(decisions[MERGE_PATH_IDS[i]]);
      if code > exit { exit := code; }
    }
  }

  /** When no path is armed by the text, the aggregate is not zero; with the exact
      rule of AllowedExactly: zero means that the text arms all three. */
  lemma ZeroMeansAllArmed(read: Text, loads: string -> Option<Value>)
    ensures (forall i :: 0 <= i < |MERGE_PATH_IDS| ==> DecideRead(read, loads, MERGE_PATH_IDS[i]).allowed) <==>
            read.Text? && loads(read.text).Some? &&
            forall i :: 0 <= i < |MERGE_PATH_IDS| ==> Arms(loads(read.text).value, MERGE_PATH_IDS[i])
  {
    hide DecideRead, Arms;
    forall i | 0 <= i < |MERGE_PATH_IDS|
      ensures DecideRead(read, loads, MERGE_PATH_IDS[i]).allowed <==>
              read.Text? && loads(read.text).Some? && Arms(loads(read.text).value, MERGE_PATH_IDS[i])
    {
      AllowedExactly(read, loads, MERGE_PATH_IDS[i]);
    }
    assert |MERGE_PATH_IDS| == 3;
    if forall i :: 0 <= i < |MERGE_PATH_IDS| ==> DecideRead(read, loads, MERGE_PATH_IDS[i]).allowed {
      assert DecideRead(read, loads, MERGE_PATH_IDS[0]).allowed;
    }
  }

  /* ---- the codes ---- */

  /** EXACT READ. Missing, unreadable, larger than the bound, or undecodable; else the
      text of the first bytes, as many as were reported. */
  lemma TextExactly(file: File, maxBytes: nat, decode: Bytes -> Option<string>)
    ensures file.Missing? ==> TextOf(file, maxBytes, decode) == Stopped(GateMissing)
    ensures file.Unopenable? ==> TextOf(file, maxBytes, decode) == Stopped(GateUnreadable)
    ensures file.Opened? && file.size > maxBytes ==> TextOf(file, maxBytes, decode) == Stopped(GateOversize)
    ensures file.Opened? && file.size <= maxBytes ==>
              var text := decode(if file.size <= |file.content| then file.content[..file.size] else file.content);
              TextOf(file, maxBytes, decode) == if text.Some? then Text(text.value) else Stopped(GateMalformed)
    ensures MAX_GATE_BYTES == 65536
  {
    if file.Opened? && file.size == |file.content| {
      assert file.content[..file.size] == file.content;
    }
  }

  /** A document that can be decided on: an object of version 1 with a boolean master
      switch and an object of paths. */
  predicate Decidable(v: Value) {
    && v.Obj? && "gateVersion" in v.fields && v.fields["gateVersion"] == Num(1.0)
    && "master" in v.fields && v.fields["master"].Obj? && "armed" in v.fields["master"].fields
    && v.fields["master"].fields["armed"].Bool?
    && "paths" in v.fields && v.fields["paths"].Obj?
  }

  /** An object of no version or of another one. */
  predicate OtherVersion(v: Value) {
    v.Obj? && ("gateVersion" in v.fields ==> v.fields["gateVersion"] != Num(1.0))
  }

  /** The switch of one path, when it is a boolean. */
  function Switch(v: Value, path: string): Option<bool>
    requires Decidable(v)
  {
    var paths := v.fields["paths"].fields;
    if path in paths && paths[path].Obj? && "armed" in paths[path].fields && paths[path].fields["armed"].Bool?
    then Some(paths[path].fields["armed"].b) else None
  }

  lemma DocumentSays(v: Value, path: string)
    ensures var decision := Decide(ParseGate(Some(v)), path);
            decision.path == path &&
            if Decidable(v) then
              decision.code == if path !in {"hammer", "daemon-clean", "python-backstop"} then UnknownPath
                               else if !v.fields["master"].fields["armed"].b then DisarmedMaster
                               else if Switch(v, path).None? then PathAbsent
                               else if Switch(v, path).value then Armed else DisarmedPath
            else
              decision.code == if OtherVersion(v) then GateVersionUnsupported else GateMalformed
  {
    hide FailClosed;
    assert path in MERGE_PATH_IDS <==> path in {"hammer", "daemon-clean", "python-backstop"};
    hide MERGE_PATH_IDS;
  }

  /** EXACT CODES. A read that stopped gives its code; otherwise the document decides:
      what it is not, the unknown path, the master switch, the missing or the set switch. */
  lemma CodeExactly(read: Text, loads: string -> Option<Value>, path: string)
    ensures DecideRead(read, loads, path).path == path
    ensures read.Stopped? ==> DecideRead(read, loads, path).code == read.code
    ensures read.Text? && loads(read.text).None? ==> DecideRead(read, loads, path).code == GateMalformed
    ensures read.Text? && loads(read.text).Some? ==>
              var v := loads(read.text).value;
              DecideRead(read, loads, path).code ==
              if Decidable(v) then
                if path !in {"hammer", "daemon-clean", "python-backstop"} then UnknownPath
                else if !v.fields["master"].fields["armed"].b then DisarmedMaster
                else if Switch(v, path).None? then PathAbsent
                else if Switch(v, path).value then Armed else DisarmedPath
              else if OtherVersion(v) then GateVersionUnsupported else GateMalformed
  {
    if read.Text? && loads(read.text).Some? {
      DocumentSays(loads(read.text).value, path);
    }
    hide DecideFrom, Decidable, Switch, FailClosed;
  }

  /** EXACT EXIT CODES of a decision on a read: 0 armed, 3 disarmed, 4 refused. */
  lemma ExitExactly(read: Text, loads: string -> Option<Value>, path: string)
    requires read.Stopped? ==> read.code in {GateMissing, GateUnreadable, GateOversize, GateMalformed}
    ensures var decision := DecideRead(read, loads, path);
            ExitCode(decision) == match decision.code
                                  case Armed => 0
                                  case DisarmedPath => 3
                                  case DisarmedMaster => 3
                                  case _ => 4
    ensures (EXIT_ALLOWED, EXIT_DISARMED, EXIT_REFUSED) == (0, 3, 4)
  {
    hide MERGE_PATH_IDS, HasBool;
  }
}
