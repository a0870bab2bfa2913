/** Verification of generated outputs in an isolated tree: the listed sources are
    written out, an untrusted generator may change everything, and the verdict is
    positive only if nothing that matters moved. */
module GeneratedVerifier {
  import opened Common
  import opened PythonText
  import opened BatchFraming

  /* ---- the listing of a commit ---- */

  /** One line of `git ls-tree -rz`. */
  datatype Listed = Listed(mode: Bytes, kind: Bytes, oid: Bytes, path: Bytes)

  /** A file to materialize. */
  datatype Source = Source(path: Bytes, mode: Bytes, oid: Bytes)

  /** One NUL-terminated entry: None stands for ValueError. */
  datatype Entry = Skipped | Taken(source: Source)

  /** The part before and after the first tab. */
  function CutAtTab(entry: Bytes): Option<(Bytes, Bytes)> {
    if entry == [] then None
    else if entry[0] == TAB then Some(([], entry[1..]))
    else
      match CutAtTab(entry[1..])
      case None => None
      case Some((head, tail)) => Some(([entry[0]] + head, tail))
  }

  function ParseEntry(entry: Bytes): Option<Entry> {
    match CutAtTab(entry)
    case None => None
    case Some((metadata, path)) =>
      var tokens := Tokens(metadata);
      if |tokens| != 3 then None
      else if tokens[1] == COMMIT then Some(Skipped)
      else if tokens[0] != MODE_FILE && tokens[0] != MODE_EXECUTABLE then None
      else Some(Taken(Source(path, tokens[0], tokens[2])))
  }

  function ParseEntries(entries: seq<Bytes>): Option<seq<Source>> {
    if entries == [] then Some([])
    else if entries[0] == [] then ParseEntries(entries[1..])
    else
      match (ParseEntry(entries[0]), ParseEntries(entries[1..]))
      case (Some(Skipped), Some(sources)) => Some(sources)
      case (Some(Taken(source)), Some(sources)) => Some([source] + sources)
      case _ => None
  }

  /** The sources of a listing. */
  function ParseListing(listing: Bytes): Option<seq<Source>> {
    ParseEntries(Split(listing, NUL))
  }

  function PrintEntry(l: Listed): Bytes {
    l.mode + [SPACE] + l.kind + [SPACE] + l.oid + [TAB] + l.path
  }

  function PrintListing(listed: seq<Listed>): Bytes {
    if listed == [] then [] else PrintEntry(listed[0]) + [NUL] + PrintListing(listed[1..])
  }

  predicate Printable(l: Listed) {
    IsToken(l.mode) && IsToken(l.kind) && IsToken(l.oid) && NUL !in PrintEntry(l)
  }

  predicate IsGitlink(l: Listed) { l.kind == COMMIT }

  predicate IsRegular(l: Listed) { l.mode == MODE_FILE || l.mode == MODE_EXECUTABLE }

  /** What a listing stands for: the regular files in order, without the gitlinks;
      nothing when some other entry is neither. */
  function SourcesOf(listed: seq<Listed>): Option<seq<Source>> {
    if listed == [] then Some([])
    else
      match SourcesOf(listed[1..])
      case None => None
      case Some(sources) =>
        if IsGitlink(listed[0]) then Some(sources)
        else if IsRegular(listed[0]) then Some([Source(listed[0].path, listed[0].mode, listed[0].oid)] + sources)
        else None
  }

  lemma {:induction false} CutAtTabIs(head: Bytes, tail: Bytes)
    requires TAB !in head
    ensures CutAtTab(head + [TAB] + tail) == Some((head, tail))
  {
    var entry := head + [TAB] + tail;
    if head == [] {
      assert entry[1..] == tail;
    } else {
      assert entry[1..] == head[1..] + [TAB] + tail;
      CutAtTabIs(head[1..], tail);
      assert [head[0]] + head[1..] == head;
    }
  }

  lemma ParsePrintedEntry(l: Listed)
    requires Printable(l)
    ensures ParseEntry(PrintEntry(l)) ==
            if IsGitlink(l) then Some(Skipped)
            else if IsRegular(l) then Some(Taken(Source(l.path, l.mode, l.oid)))
            else None
  {
    hide Tokens, CutAtTab;
    var metadata := l.mode + [SPACE] + l.kind + [SPACE] + l.oid;
    forall i | 0 <= i < |metadata| ensures metadata[i] != TAB { }
    CutAtTabIs(metadata, l.path);
    ThreeTokens(l.mode, l.kind, l.oid, metadata);
    assert PrintEntry(l) == metadata + [TAB] + l.path;
  }

  /** Reading a printed listing gives exactly what the listing stands for, also when
      paths hold tabs, blanks or newlines. */
  lemma {:induction false} ListingRoundTrip(listed: seq<Listed>)
    requires forall i :: 0 <= i < |listed| ==> Printable(listed[i])
    ensures ParseListing(PrintListing(listed)) == SourcesOf(listed)
  {
    hide ParseEntry, IsGitlink, IsRegular;
    if listed == [] {
      var one: seq<Bytes> := [[]];
      assert Split<Byte>([], NUL) == one && one[1..] == [];
      assert ParseEntries(one) == Some([]);
    } else {
      var first := listed[0];
      var entry, rest := PrintEntry(first), PrintListing(listed[1..]);
      SplitPrefix(entry, NUL, rest);
      ParsePrintedEntry(first);
      ListingRoundTrip(listed[1..]);
      var parts := Split(entry + [NUL] + rest, NUL);
      assert parts[0] == entry && parts[1..] == Split(rest, NUL);
      assert entry != [] && parts == Split(PrintListing(listed), NUL);
      assert ParseEntries(parts[1..]) == SourcesOf(listed[1..]);
    }
  }

  lemma {:induction false} NoTabNoCut(entry: Bytes)
    requires TAB !in entry
    ensures CutAtTab(entry).None?
  {
    if entry != [] {
      NoTabNoCut(entry[1..]);
    }
  }

  /** EXACT ENTRY. An entry is refused without a tab, without exactly three words before
      it, or with a mode that is no regular file's; a commit is skipped whatever its mode. */
  lemma EntryExactly(entry: Bytes, head: Bytes, path: Bytes)
    ensures TAB !in entry ==> ParseEntry(entry).None?
    ensures TAB !in head && entry == head + [TAB] + path ==>
              var words := Tokens(head);
              ParseEntry(entry) ==
              if |words| != 3 then None
              else if Text(words[1]) == "commit" then Some(Skipped)
              else if Text(words[0]) == "100644" || Text(words[0]) == "100755"
              then Some(Taken(Source(path, words[0], words[2])))
              else None
  {
    if TAB !in entry {
      NoTabNoCut(entry);
    }
    if TAB !in head && entry == head + [TAB] + path {
      CutAtTabIs(head, path);
      ConstantsSpell();
      var words := Tokens(head);
      if |words| == 3 {
        TextIsInjective(words[1], COMMIT);
        TextIsInjective(words[0], MODE_FILE);
        TextIsInjective(words[0], MODE_EXECUTABLE);
      }
      hide Tokens, CutAtTab, Text;
    }
  }

  lemma TextIsInjective(a: Bytes, b: Bytes)
    ensures Text(a) == Text(b) <==> a == b
  {
    if Text(a) == Text(b) {
      assert |a| == |Text(a)| == |b|;
      forall i | 0 <= i < |a| ensures a[i] == b[i] {
        assert Text(a)[i] == Text(b)[i];
      }
    }
  }

  /** One refused entry anywhere refuses the whole listing. */
  lemma {:induction false} RefusedEntryRefusesAll(entries: seq<Bytes>, i: nat)
    requires i < |entries| && entries[i] != [] && ParseEntry(entries[i]).None?
    ensures ParseEntries(entries).None?
  {
    hide ParseEntry;
    if i > 0 {
      RefusedEntryRefusesAll(entries[1..], i - 1);
    }
  }

  /* ---- the isolated tree ---- */

  /** What lies at a path. A link may or may not lead to readable bytes. */
  datatype Node = Regular(content: Bytes) | Link(target: Option<Bytes>) | Directory

  type Tree = map<Bytes, Node>

  /** A tree as it is written out: regular files only. */
  type Checkout = tree: Tree | forall path :: path in tree ==> tree[path].Regular? witness map[]

  /** The outcome of the untrusted generator: it raised, or it left some tree and
      said whether the outputs are registered. */
  datatype Regeneration = Failed | Finished(tree: Tree, registered: bool)

  datatype Verdict = Verified | Refused

  /** `(root / path).read_bytes()`, which follows a link. */
  function ReadThrough(tree: Tree, path: Bytes): Option<Bytes> {
    if path !in tree then None
    else
      match tree[path]
      case Regular(content) => Some(content)
      case Link(target) => target
      case Directory => None
  }

  /** Not a link, and a file. */
  predicate IsFile(tree: Tree, path: Bytes) {
    path in tree && tree[path].Regular?
  }

  function Materialize(sources: seq<Source>, contents: seq<Bytes>): Checkout
    requires |sources| == |contents|
  {
    if sources == [] then map[]
    else
      var last := |sources| - 1;
      Materialize(sources[..last], contents[..last])[sources[last].path := Regular(contents[last])]
  }

  function Oids(sources: seq<Source>): seq<Bytes> {
    seq(|sources|, i requires 0 <= i < |sources| => sources[i].oid)
  }

  /** The request: registered outputs of a listed commit whose blobs were read. */
  datatype Request = Request(listing: Bytes, batch: Bytes, paths: seq<Bytes>, registry: set<Bytes>)

  /* ---- when the verdict is positive ---- */

  predicate WellFormed(r: Request) {
    r.paths != [] && forall i :: 0 <= i < |r.paths| ==> r.paths[i] in r.registry
  }

  /** The tree that is written out before the generator runs; None when the code raises. */
  function Prepared(r: Request, safe: Bytes -> bool): Option<Checkout> {
    match ParseListing(r.listing)
    case None => None
    case Some(sources) =>
      match ReadFrames(r.batch, Oids(sources))
      case None => None
      case Some(contents) =>
        if |contents| == |sources| && forall i :: 0 <= i < |sources| ==> safe(sources[i].path)
        then Some(Materialize(sources, contents)) else None
  }

  predicate SourcesKept(before: Checkout, after: Tree, paths: seq<Bytes>, digest: Bytes -> Bytes)
  {
    forall path :: path in before && path !in paths ==>
      IsFile(after, path) && digest(after[path].content) == digest(before[path].content)
  }

  predicate OutputsKept(before: Checkout, after: Tree, paths: seq<Bytes>)
  {
    forall i :: 0 <= i < |paths| ==>
      paths[i] in before && ReadThrough(after, paths[i]) == Some(before[paths[i]].content)
  }

  predicate Accepts(r: Request, safe: Bytes -> bool, digest: Bytes -> Bytes, regenerate: Tree -> Regeneration) {
    && WellFormed(r)
    && Prepared(r, safe).Some?
    && var before := Prepared(r, safe).value;
       && (forall i :: 0 <= i < |r.paths| ==> r.paths[i] in before)
       && regenerate(before).Finished? && regenerate(before).registered
       && SourcesKept(before, regenerate(before).tree, r.paths, digest)
       && OutputsKept(before, regenerate(before).tree, r.paths)
  }

  /* ---- the implementation ---- */

  /** The temporary directory. */
  class Workspace {
    var tree: Tree

    constructor ()
      ensures tree == map[]
    {
      tree := map[];
    }

    method Write(path: Bytes, content: Bytes)
      modifies this
      ensures tree == old(tree)[path := Regular(content)]
    {
      tree := tree[path := Regular(content)];
    }

    /** Whatever the generator does to the tree. */
    method Regenerate(regenerate: Tree -> Regeneration) returns (registered: bool)
      modifies this
      ensures registered <==> regenerate(old(tree)).Finished? && regenerate(old(tree)).registered
      ensures registered ==> tree == regenerate(old(tree)).tree
    {
      var outcome := regenerate(tree);
      if outcome.Failed? { return false; }
      tree := outcome.tree;
      registered := outcome.registered;
    }
  }

  /** One frame of the batch stream. */
  method NextContent(stream: ByteStream, oid: Bytes) returns (content: Option<Bytes>)
    requires stream.Valid()
    modifies stream
    ensures stream.Valid()
    ensures content.None? <==> ReadFrame(old(stream.Rest()), oid).None?
    ensures content.Some? ==> ReadFrame(old(stream.Rest()), oid) == Some((content.value, stream.Rest()))
  {
    hide Tokens, ToInt, Text;
    var line := stream.ReadLine();
    var tokens := Tokens(line);
    if |tokens| != 3 || tokens[0] != oid || tokens[1] != BLOB { return None; }
    var size := ToInt(Text(tokens[2]));
    if size.None? { return None; }
    var read := stream.Read(size.value);
    if |read| != size.value { return None; }
    var mark := stream.Read(1);
    if mark != [NEWLINE] { return None; }
    return Some(read);
  }

  /** The digests of the files that are no requested outputs. */
  function SourceDigests(tree: Checkout, paths: seq<Bytes>, digest: Bytes -> Bytes): map<Bytes, Bytes> {
    map path | path in tree && path !in paths :: digest(tree[path].content)
  }

  lemma NoDigests(paths: seq<Bytes>, digest: Bytes -> Bytes)
    ensures SourceDigests(map[], paths, digest) == map[]
  {
  }

  lemma DigestsStep(tree: Checkout, path: Bytes, content: Bytes, paths: seq<Bytes>, digest: Bytes -> Bytes)
    ensures SourceDigests(tree[path := Regular(content)], paths, digest) ==
            if path in paths then SourceDigests(tree, paths, digest)
            else SourceDigests(tree, paths, digest)[path := digest(content)]
  {
  }

  /** The loop that reads, checks and writes out the sources. */
  method WriteSources(sources: seq<Source>, paths: seq<Bytes>, batch: Bytes, safe: Bytes -> bool,
                      digest: Bytes -> Bytes,
                      workspace: Workspace)
    returns (digests: Option<map<Bytes, Bytes>>)
    requires workspace.tree == map[]
    modifies workspace
    ensures digests.Some? <==>
              ReadFrames(batch, Oids(sources)).Some? && forall i :: 0 <= i < |sources| ==> safe(sources[i].path)
    ensures digests.Some? ==>
              var contents := ReadFrames(batch, Oids(sources)).value;
              |contents| == |sources| && workspace.tree == Materialize(sources, contents) &&
              digests.value == SourceDigests(Materialize(sources, contents), paths, digest)
  {
    hide ReadFrame, ReadFrames, Materialize, Oids, After, SourceDigests;
    var stream := new ByteStream(batch);
    var sourceDigests: map<Bytes, Bytes> := map[];
    ghost var oids, done: seq<Bytes> := Oids(sources), [];
    assert |oids| == |sources| && forall k :: 0 <= k < |oids| ==> oids[k] == sources[k].oid by { OidsAre(sources); }
    assert oids[0..] == oids && batch[0..] == batch && sources[..0] == [];
    AfterNothing(ReadFrames(batch, oids));
    MaterializeNothing();
    NoDigests(paths, digest);
    for i := 0 to |sources|
      invariant fresh(stream) && stream.Valid() && |done| == i
      invariant ReadFrames(batch, oids) == After(done, ReadFrames(stream.Rest(), oids[i..]))
      invariant forall k :: 0 <= k < i ==> safe(sources[k].path)
      invariant workspace.tree == Materialize(sources[..i], done)
      invariant sourceDigests == SourceDigests(Materialize(sources[..i], done), paths, digest)
    {
      ghost var stepped := stream.Rest();
      assert oids[i..][0] == oids[i] == sources[i].oid && oids[i..][1..] == oids[i + 1..];
      var content := NextContent(stream, sources[i].oid);
      if content.None? {
        AfterFailure(done, stepped, oids[i..]);
        return None;
      }
      if !safe(sources[i].path) { return None; }
      AfterStep(done, stepped, stream.Rest(), oids[i..], content.value);
      MaterializeStep(sources, done, i, content.value);
      DigestsStep(Materialize(sources[..i], done), sources[i].path, content.value, paths, digest);
      workspace.Write(sources[i].path, content.value);
      if sources[i].path !in paths {
        sourceDigests := sourceDigests[sources[i].path := digest(content.value)];
      }
      done := done + [content.value];
    }
    assert sources[..|sources|] == sources;
    AllRead(done, stream.Rest(), oids[|oids|..]);
    return Some(sourceDigests);
  }

  lemma OidsAre(sources: seq<Source>)
    ensures |Oids(sources)| == |sources| && forall k :: 0 <= k < |sources| ==> Oids(sources)[k] == sources[k].oid
  {
  }

  lemma MaterializeNothing()
    ensures Materialize([], []) == map[]
  {
  }

  lemma MaterializeStep(sources: seq<Source>, done: seq<Bytes>, i: nat, content: Bytes)
    requires i < |sources| && |done| == i
    ensures Materialize(sources[..i + 1], done + [content]) ==
            Materialize(sources[..i], done)[sources[i].path := Regular(content)]
  {
    assert sources[..i + 1][..i] == sources[..i] && (done + [content])[..i] == done;
  }

  lemma AfterNothing(rest: Option<seq<Bytes>>)
    ensures After([], rest) == rest
  {
    if rest.Some? {
      assert [] + rest.value == rest.value;
    }
  }

  lemma AfterFailure(done: seq<Bytes>, stream: Bytes, oids: seq<Bytes>)
    requires oids != [] && ReadFrame(stream, oids[0]).None?
    ensures After(done, ReadFrames(stream, oids)).None?
  {
    hide ReadFrame;
  }

  lemma AllRead(done: seq<Bytes>, stream: Bytes, oids: seq<Bytes>)
    requires oids == []
    ensures After(done, ReadFrames(stream, oids)) == Some(done)
  {
    assert done + [] == done;
  }

  function After(done: seq<Bytes>, rest: Option<seq<Bytes>>): Option<seq<Bytes>> {
    if rest.None? then None else Some(done + rest.value)
  }

  lemma AfterStep(done: seq<Bytes>, stream: Bytes, rest: Bytes, oids: seq<Bytes>, content: Bytes)
    requires oids != [] && ReadFrame(stream, oids[0]) == Some((content, rest))
    ensures After(done, ReadFrames(stream, oids)) == After(done + [content], ReadFrames(rest, oids[1..]))
  {
    hide ReadFrame;
    var more := ReadFrames(rest, oids[1..]);
    if more.Some? {
      assert done + ([content] + more.value) == done + [content] + more.value;
    }
  }

  /** The two comparison loops after the generator ran. */
  method Compare(workspace: Workspace, digests: map<Bytes, Bytes>, expected: map<Bytes, Bytes>, digest: Bytes -> Bytes)
    returns (same: bool)
    ensures same <==>
      (forall path :: path in digests ==>
         IsFile(workspace.tree, path) && digest(workspace.tree[path].content) == digests[path]) &&
      (forall path :: path in expected ==> ReadThrough(workspace.tree, path) == Some(expected[path]))
  {
    var todo := digests.Keys;
    while todo != {}
      invariant todo <= digests.Keys
      invariant forall path :: path in digests.Keys - todo ==>
        IsFile(workspace.tree, path) && digest(workspace.tree[path].content) == digests[path]
    {
      var path :| path in todo;
      if !IsFile(workspace.tree, path) || digest(workspace.tree[path].content) != digests[path] { return false; }
      todo := todo - {path};
    }
    todo := expected.Keys;
    while todo != {}
      invariant todo <= expected.Keys
      invariant forall path :: path in expected.Keys - todo ==>
                ReadThrough(workspace.tree, path) == Some(expected[path])
    {
      var path :| path in todo;
      if ReadThrough(workspace.tree, path) != Some(expected[path]) { return false; }
      todo := todo - {path};
    }
    return true;
  }

  /** The committed contents of the requested outputs. */
  method Expect(workspace: Workspace, paths: seq<Bytes>) returns (expected: Option<map<Bytes, Bytes>>)
    ensures expected.Some? <==> forall i :: 0 <= i < |paths| ==> IsFile(workspace.tree, paths[i])
    ensures expected.Some? ==> forall path :: path in expected.value <==> path in paths
    ensures expected.Some? ==> forall path :: path in paths ==> expected.value[path] == workspace.tree[path].content
  {
    var contents: map<Bytes, Bytes> := map[];
    for i := 0 to |paths|
      invariant forall k :: 0 <= k < i ==> IsFile(workspace.tree, paths[k])
      invariant forall path :: path in contents <==> path in paths[..i]
      invariant forall path :: path in contents ==> contents[path] == workspace.tree[path].content
    {
      if !IsFile(workspace.tree, paths[i]) { return None; }
      assert paths[..i + 1] == paths[..i] + [paths[i]];
      contents := contents[paths[i] := workspace.tree[paths[i]].content];
    }
    return Some(contents);
  }

  /** What the loops compare is what must not have moved. */
  lemma ComparedIsKept(before: Checkout, after: Tree, paths: seq<Bytes>, digest: Bytes -> Bytes,
                       digests: map<Bytes, Bytes>, expected: map<Bytes, Bytes>)
    requires forall i :: 0 <= i < |paths| ==> paths[i] in before
    requires digests == SourceDigests(before, paths, digest)
    requires forall path :: path in expected <==> path in paths
    requires forall path :: path in paths ==> expected[path] == before[path].content
    ensures SourcesKept(before, after, paths, digest) <==>
            forall path :: path in digests ==> IsFile(after, path) && digest(after[path].content) == digests[path]
    ensures OutputsKept(before, after, paths) <==>
            forall path :: path in expected ==> ReadThrough(after, path) == Some(expected[path])
  {
    hide ReadThrough, IsFile;
    if OutputsKept(before, after, paths) {
      forall path | path in expected ensures ReadThrough(after, path) == Some(expected[path]) {
        InPaths(paths, path);
      }
    }
  }

  /** `main` from the listing to the verdict. */
  method Verify(r: Request, safe: Bytes -> bool, digest: Bytes -> Bytes, regenerate: Tree -> Regeneration)
    returns (verdict: Verdict)
    ensures verdict == Verified <==> Accepts(r, safe, digest, regenerate)
  {
    hide ParseListing, ReadFrames, Materialize, ReadThrough, SourceDigests, SourcesKept, OutputsKept;
    if r.paths == [] || exists i :: 0 <= i < |r.paths| && r.paths[i] !in r.registry { return Refused; }
    var sources := ParseListing(r.listing);
    if sources.None? { return Refused; }
    var workspace := new Workspace();
    var digests := WriteSources(sources.value, r.paths, r.batch, safe, digest, workspace);
    if digests.None? { return Refused; }
    ghost var before := workspace.tree;
    assert Prepared(r, safe) == Some(before);
    var expected := Expect(workspace, r.paths);
    if expected.None? { return Refused; }
    var registered := workspace.Regenerate(regenerate);
    if !registered { return Refused; }
    var same := Compare(workspace, digests.value, expected.value, digest);
    ComparedIsKept(before, workspace.tree, r.paths, digest, digests.value, expected.value);
    return if same then Verified else Refused;
  }

  /* ---- what a positive verdict is worth ---- */

  ghost predicate UniquePaths(sources: seq<Source>) {
    forall i, j :: 0 <= i < j < |sources| ==> sources[i].path != sources[j].path
  }

  lemma {:induction false} MaterializeKeys(sources: seq<Source>, contents: seq<Bytes>, path: Bytes)
    requires |sources| == |contents| && path in Materialize(sources, contents)
    ensures exists i :: 0 <= i < |sources| && sources[i].path == path
  {
    var last := |sources| - 1;
    if path == sources[last].path {
    } else {
      MaterializeKeys(sources[..last], contents[..last], path);
      var i :| 0 <= i < last && sources[..last][i].path == path;
      assert sources[i].path == path;
    }
  }

  lemma {:induction false} MaterializeAt(sources: seq<Source>, contents: seq<Bytes>, i: nat)
    requires |sources| == |contents| && UniquePaths(sources) && i < |sources|
    ensures var tree := Materialize(sources, contents);
            sources[i].path in tree && tree[sources[i].path] == Regular(contents[i])
  {
    var last := |sources| - 1;
    if i < last {
      MaterializeAt(sources[..last], contents[..last], i);
      assert sources[i].path != sources[last].path;
    }
  }

  /** Every source is a listed regular file and no gitlink. */
  lemma {:induction false} SourcesAreListed(listed: seq<Listed>)
    requires SourcesOf(listed).Some?
    ensures forall s :: s in SourcesOf(listed).value ==>
              exists i :: 0 <= i < |listed| && !IsGitlink(listed[i]) && IsRegular(listed[i])
                       && s == Source(listed[i].path, listed[i].mode, listed[i].oid)
  {
    hide IsGitlink, IsRegular;
    if listed != [] {
      SourcesAreListed(listed[1..]);
      forall s | s in SourcesOf(listed).value
        ensures exists i :: 0 <= i < |listed| && !IsGitlink(listed[i]) && IsRegular(listed[i])
                         && s == Source(listed[i].path, listed[i].mode, listed[i].oid)
      {
        if s in SourcesOf(listed[1..]).value {
          var i :| 0 <= i < |listed| - 1 && !IsGitlink(listed[1..][i]) && IsRegular(listed[1..][i])
                && s == Source(listed[1..][i].path, listed[1..][i].mode, listed[1..][i].oid);
          assert listed[i + 1] == listed[1..][i];
        } else {
          assert s == Source(listed[0].path, listed[0].mode, listed[0].oid);
        }
      }
    }
  }

  /** An honest request: git printed the listing of some commit and the frames of its
      regular files, whose contents are `blobs`. */
  ghost predicate Honest(r: Request, listed: seq<Listed>, blobs: seq<Bytes>) {
    && (forall i :: 0 <= i < |listed| ==> Printable(listed[i]))
    && r.listing == PrintListing(listed)
    && SourcesOf(listed).Some?
    && var sources := SourcesOf(listed).value;
       && UniquePaths(sources) && |blobs| == |sources|
       && r.batch == Concat(Printed(Oids(sources), blobs))
  }

  /** On an honest request the tree given to the generator holds exactly the blobs. */
  lemma PreparedHolds(r: Request, safe: Bytes -> bool, listed: seq<Listed>, blobs: seq<Bytes>)
    requires Honest(r, listed, blobs)
    ensures Prepared(r, safe).Some? ==> Prepared(r, safe) == Some(Materialize(SourcesOf(listed).value, blobs))
    ensures Prepared(r, safe).Some? <==> forall s :: s in SourcesOf(listed).value ==> safe(s.path)
  {
    hide ReadFrames, ParseListing, Concat, Printed, Materialize, IsToken, SourcesOf;
    var sources := SourcesOf(listed).value;
    ListingRoundTrip(listed);
    SourcesAreListed(listed);
    forall i | 0 <= i < |sources| ensures IsToken(Oids(sources)[i]) {
      assert sources[i] in sources;
    }
    assert r.batch + [] == r.batch;
    FramingRoundTrip(Oids(sources), blobs, []);
    assert (forall s :: s in sources ==> safe(s.path)) <==> forall i :: 0 <= i < |sources| ==> safe(sources[i].path);
  }

  /** A requested output is still a regular file with its blob, or a link that reads as
      it; any other file is still a regular file with the digest of its blob. */
  predicate Kept(path: Bytes, blob: Bytes, after: Tree, paths: seq<Bytes>, digest: Bytes -> Bytes) {
    path in after &&
    if path in paths then after[path] in {Regular(blob), Link(Some(blob))}
    else after[path].Regular? && digest(after[path].content) == digest(blob)
  }

  /** SOUNDNESS for every generator. A positive verdict on an honest request means
      that each requested output is a regular file of the commit (never a gitlink)
      and still reads as its blob, and that every other file of the commit is still
      a regular file with the digest of its blob. */
  lemma VerifiedIsSound(r: Request, safe: Bytes -> bool, digest: Bytes -> Bytes, regenerate: Tree -> Regeneration,
                        listed: seq<Listed>, blobs: seq<Bytes>)
    requires Honest(r, listed, blobs) && Accepts(r, safe, digest, regenerate)
    ensures var sources, after := SourcesOf(listed).value, regenerate(Prepared(r, safe).value).tree;
            && (forall path :: path in r.paths ==>
                 exists k :: 0 <= k < |listed| && listed[k].path == path && IsRegular(listed[k]) &&
                   !IsGitlink(listed[k]))
            && (forall i :: 0 <= i < |sources| ==> Kept(sources[i].path, blobs[i], after, r.paths, digest))
  {
    hide Prepared, SourcesOf, IsRegular, IsGitlink, SourcesKept, OutputsKept, Kept, Printable, Concat, Printed,
         PrintListing;
    var sources, after := SourcesOf(listed).value, regenerate(Prepared(r, safe).value).tree;
    forall path | path in r.paths
      ensures exists k :: 0 <= k < |listed| && listed[k].path == path && IsRegular(listed[k]) && !IsGitlink(listed[k])
    {
      OutputIsListed(r, safe, digest, regenerate, listed, blobs, path);
    }
    forall i | 0 <= i < |sources| ensures Kept(sources[i].path, blobs[i], after, r.paths, digest) {
      OutputIsKept(r, safe, digest, regenerate, listed, blobs, i);
    }
  }

  /** Every file of the commit is as it was, after a finished and registered run. */
  ghost predicate FilesKept(sources: seq<Source>, blobs: seq<Bytes>, paths: seq<Bytes>, digest: Bytes -> Bytes,
                            outcome: Regeneration)
    requires |blobs| == |sources|
  {
    && outcome.Finished? && outcome.registered
    && forall i :: 0 <= i < |sources| ==> Kept(sources[i].path, blobs[i], outcome.tree, paths, digest)
  }

  /** Every requested path is the path of a source. */
  ghost predicate PathsAreSources(sources: seq<Source>, paths: seq<Bytes>) {
    forall path :: path in paths ==> exists i :: 0 <= i < |sources| && sources[i].path == path
  }

  /** A request names at least one output, and only registered ones. */
  lemma WellFormedExactly(r: Request)
    ensures WellFormed(r) <==> r.paths != [] && forall path :: path in r.paths ==> path in r.registry
  {
    if WellFormed(r) {
      forall path | path in r.paths ensures path in r.registry { InPaths(r.paths, path); }
    }
  }

  /** An unregistered output is never verified, whatever else holds. */
  lemma OnlyRegisteredIsAccepted(r: Request, safe: Bytes -> bool, digest: Bytes -> Bytes,
                                 regenerate: Tree -> Regeneration)
    requires Accepts(r, safe, digest, regenerate)
    ensures r.paths != [] && forall path :: path in r.paths ==> path in r.registry
  {
    WellFormedExactly(r);
    hide WellFormed, Prepared;
  }

  /** EXACT VERDICT. An honest request is verified exactly when it names outputs, all of
      them registered, all its paths are safe, its outputs are files of the commit, and the run of the
      generator on the blobs finished, registered, and kept every file. */
  lemma VerifiedExactly(r: Request, safe: Bytes -> bool, digest: Bytes -> Bytes, regenerate: Tree -> Regeneration,
                        listed: seq<Listed>, blobs: seq<Bytes>)
    requires Honest(r, listed, blobs)
    ensures var sources := SourcesOf(listed).value;
            Accepts(r, safe, digest, regenerate) <==>
            (r.paths != [] && (forall path :: path in r.paths ==> path in r.registry) &&
             (forall s :: s in sources ==> safe(s.path)) && PathsAreSources(sources, r.paths) &&
             FilesKept(sources, blobs, r.paths, digest, regenerate(Materialize(sources, blobs))))
  {
    var sources := SourcesOf(listed).value;
    PreparedHolds(r, safe, listed, blobs);
    assert |blobs| == |sources| && UniquePaths(sources);
    WellFormedExactly(r);
    hide Prepared, SourcesOf, Materialize, Honest, WellFormed, SourcesKept, OutputsKept, Kept;
    if Accepts(r, safe, digest, regenerate) {
      forall path | path in r.paths ensures exists i :: 0 <= i < |sources| && sources[i].path == path {
        InPaths(r.paths, path);
        MaterializeKeys(sources, blobs, path);
      }
      forall i | 0 <= i < |sources|
        ensures Kept(sources[i].path, blobs[i], regenerate(Materialize(sources, blobs)).tree, r.paths, digest)
      {
        OutputIsKept(r, safe, digest, regenerate, listed, blobs, i);
      }
    }
    var outcome := regenerate(Materialize(sources, blobs));
    if PathsAreSources(sources, r.paths) && FilesKept(sources, blobs, r.paths, digest, outcome) {
      FilesKeptAreAccepted(sources, blobs, r.paths, digest, outcome);
    }
  }

  lemma FilesKeptAreAccepted(sources: seq<Source>, blobs: seq<Bytes>, paths: seq<Bytes>, digest: Bytes -> Bytes,
                             outcome: Regeneration)
    requires |blobs| == |sources| && UniquePaths(sources) && PathsAreSources(sources, paths)
    requires FilesKept(sources, blobs, paths, digest, outcome)
    ensures var before := Materialize(sources, blobs);
            && (forall i :: 0 <= i < |paths| ==> paths[i] in before)
            && SourcesKept(before, outcome.tree, paths, digest) && OutputsKept(before, outcome.tree, paths)
  {
    assert outcome.Finished?;
    hide Materialize, Kept, SourcesKept, OutputsKept, UniquePaths, FilesKept, PathsAreSources;
    var before := Materialize(sources, blobs);
    forall path | path in before ensures Kept(path, before[path].content, outcome.tree, paths, digest) {
      FileIsKept(sources, blobs, paths, digest, outcome, path);
    }
    forall k | 0 <= k < |paths| ensures paths[k] in before {
      PathIsMaterialized(sources, blobs, paths, k);
    }
    AllKept(before, outcome.tree, paths, digest);
  }

  lemma FileIsKept(sources: seq<Source>, blobs: seq<Bytes>, paths: seq<Bytes>, digest: Bytes -> Bytes,
                   outcome: Regeneration, path: Bytes)
    requires |blobs| == |sources| && UniquePaths(sources) && FilesKept(sources, blobs, paths, digest, outcome)
    requires path in Materialize(sources, blobs)
    ensures Kept(path, Materialize(sources, blobs)[path].content, outcome.tree, paths, digest)
  {
    hide Materialize, Kept, UniquePaths;
    MaterializeKeys(sources, blobs, path);
    var i :| 0 <= i < |sources| && sources[i].path == path;
    MaterializeAt(sources, blobs, i);
  }

  lemma PathIsMaterialized(sources: seq<Source>, blobs: seq<Bytes>, paths: seq<Bytes>, k: nat)
    requires |blobs| == |sources| && UniquePaths(sources) && PathsAreSources(sources, paths) && k < |paths|
    ensures paths[k] in Materialize(sources, blobs)
  {
    hide Materialize, UniquePaths;
    assert paths[k] in paths;
    var i :| 0 <= i < |sources| && sources[i].path == paths[k];
    MaterializeAt(sources, blobs, i);
  }

  lemma AllKept(before: Checkout, after: Tree, paths: seq<Bytes>, digest: Bytes -> Bytes)
    requires forall path :: path in before ==> Kept(path, before[path].content, after, paths, digest)
    requires forall i :: 0 <= i < |paths| ==> paths[i] in before
    ensures SourcesKept(before, after, paths, digest) && OutputsKept(before, after, paths)
  {
    forall i | 0 <= i < |paths| ensures ReadThrough(after, paths[i]) == Some(before[paths[i]].content) {
      assert Kept(paths[i], before[paths[i]].content, after, paths, digest);
    }
  }

  lemma OutputIsListed(r: Request, safe: Bytes -> bool, digest: Bytes -> Bytes, regenerate: Tree -> Regeneration,
                       listed: seq<Listed>, blobs: seq<Bytes>, path: Bytes)
    requires Honest(r, listed, blobs) && Accepts(r, safe, digest, regenerate) && path in r.paths
    ensures exists k :: 0 <= k < |listed| && listed[k].path == path && IsRegular(listed[k]) && !IsGitlink(listed[k])
  {
    var sources, before := SourcesOf(listed).value, Prepared(r, safe).value;
    PreparedHolds(r, safe, listed, blobs);
    SourcesAreListed(listed);
    hide Prepared, Materialize, SourcesOf, IsRegular, IsGitlink, Honest, ReadThrough, SourcesKept;
    InPaths(r.paths, path);
    MaterializeKeys(sources, blobs, path);
    var j :| 0 <= j < |sources| && sources[j].path == path;
    assert sources[j] in sources;
  }

  lemma OutputIsKept(r: Request, safe: Bytes -> bool, digest: Bytes -> Bytes, regenerate: Tree -> Regeneration,
                     listed: seq<Listed>, blobs: seq<Bytes>, i: nat)
    requires Honest(r, listed, blobs) && Accepts(r, safe, digest, regenerate) && i < |SourcesOf(listed).value|
    ensures Kept(SourcesOf(listed).value[i].path, blobs[i], regenerate(Prepared(r, safe).value).tree, r.paths, digest)
  {
    var sources, before := SourcesOf(listed).value, Prepared(r, safe).value;
    PreparedHolds(r, safe, listed, blobs);
    MaterializeAt(sources, blobs, i);
    hide Prepared, Materialize, SourcesOf, Honest, ReadThrough;
    if sources[i].path in r.paths {
      InPaths(r.paths, sources[i].path);
    }
  }

  lemma InPaths(paths: seq<Bytes>, path: Bytes)
    requires path in paths
    ensures exists i :: 0 <= i < |paths| && paths[i] == path
  {
  }

  /** A digest that tells the contents at hand apart makes "same digest" mean "same content". */
  lemma VerifiedTreeReadsTheSame(r: Request, safe: Bytes -> bool, digest: Bytes -> Bytes,
                                 regenerate: Tree -> Regeneration)
    requires Accepts(r, safe, digest, regenerate)
    requires var before, after := Prepared(r, safe).value, regenerate(Prepared(r, safe).value).tree;
             forall path :: path in before && IsFile(after, path) &&
               digest(after[path].content) == digest(before[path].content)
               ==> after[path].content == before[path].content
    ensures var before, after := Prepared(r, safe).value, regenerate(Prepared(r, safe).value).tree;
            forall path :: path in before ==> ReadThrough(after, path) == ReadThrough(before, path)
  {
    hide Prepared;
    var before, after := Prepared(r, safe).value, regenerate(Prepared(r, safe).value).tree;
    forall path | path in before ensures ReadThrough(after, path) == ReadThrough(before, path) {
      if path in r.paths {
        var i :| 0 <= i < |r.paths| && r.paths[i] == path;
      }
    }
  }

  /** Nothing worse than a link passes: in an accepted run every requested output is a
      regular file with its blob or a link that reads as its blob. */
  lemma AcceptedOutputs(r: Request, safe: Bytes -> bool, digest: Bytes -> Bytes, regenerate: Tree -> Regeneration,
                        output: Bytes)
    requires Accepts(r, safe, digest, regenerate) && output in r.paths
    ensures var before, after := Prepared(r, safe).value, regenerate(Prepared(r, safe).value).tree;
            && output in before && output in after
            && after[output] in {Regular(before[output].content), Link(Some(before[output].content))}
  {
    hide Prepared;
    var i :| 0 <= i < |r.paths| && r.paths[i] == output;
  }

  /** EXACT OUTPUTS. After an accepted run, a node put in the place of an output is
      accepted exactly when it is a regular file with the blob or a link to the blob. */
  lemma OutputNodeExactly(r: Request, safe: Bytes -> bool, digest: Bytes -> Bytes, regenerate: Tree -> Regeneration,
                          replacing: Tree -> Regeneration, output: Bytes, node: Node)
    requires Accepts(r, safe, digest, regenerate) && output in r.paths
    requires var before := Prepared(r, safe).value;
             replacing(before) == Finished(regenerate(before).tree[output := node], true)
    ensures output in Prepared(r, safe).value
    ensures var blob := Prepared(r, safe).value[output].content;
            Accepts(r, safe, digest, replacing) <==> node in {Regular(blob), Link(Some(blob))}
  {
    hide Prepared, WellFormed;
    AcceptedOutputs(r, safe, digest, regenerate, output);
    if Accepts(r, safe, digest, replacing) {
      AcceptedOutputs(r, safe, digest, replacing, output);
    }
    var before, after := Prepared(r, safe).value, replacing(Prepared(r, safe).value).tree;
    forall i | 0 <= i < |r.paths| && r.paths[i] != output
      ensures ReadThrough(after, r.paths[i]) == Some(before[r.paths[i]].content)
    {
      assert ReadThrough(regenerate(before).tree, r.paths[i]) == Some(before[r.paths[i]].content);
    }
  }

  /** The outputs are read through links: a generator that replaces one by a link to
      the same bytes is still verified. */
  lemma OutputMayBecomeALink(r: Request, safe: Bytes -> bool, digest: Bytes -> Bytes, regenerate: Tree -> Regeneration,
                             linking: Tree -> Regeneration, output: Bytes)
    requires Accepts(r, safe, digest, regenerate) && output in r.paths
    requires var before := Prepared(r, safe).value;
             linking(before) == Finished(regenerate(before).tree[output := Link(ReadThrough(before, output))], true)
    ensures Accepts(r, safe, digest, linking)
  {
    AcceptedOutputs(r, safe, digest, regenerate, output);
    var blob := Prepared(r, safe).value[output].content;
    OutputNodeExactly(r, safe, digest, regenerate, linking, output, Link(Some(blob)));
  }
}
