/** Publishing a local commit through the API: reading two tree listings, the list
    of changed paths, its admission and split, and what applying it gives. */
module TreePublication {
  import opened Common
  import opened PythonText

  datatype Entry = Entry(mode: string, oid: string)

  /** A JavaScript Map: its keys in insertion order and its values. */
  datatype Listing = Listing(keys: seq<string>, at: map<string, Entry>)

  const EMPTY := Listing([], map[])
  const FILE_MODE := "100644"

  /* ---- reading `git ls-tree -rz` ---- */

  function IndexOf(text: string, mark: char): (i: int)
    ensures -1 <= i < |text|
    ensures i >= 0 ==> text[i] == mark && mark !in text[..i]
    ensures i < 0 <==> mark !in text
  {
    if text == "" then -1
    else if text[0] == mark then 0
    else
      var i := IndexOf(text[1..], mark);
      assert i >= 0 ==> text[..i + 1] == [text[0]] + text[1..][..i];
      if i < 0 then -1 else i + 1
  }

  function Put(listing: Listing, path: string, entry: Entry): Listing {
    Listing(if path in listing.at then listing.keys else listing.keys + [path], listing.at[path := entry])
  }

  /** One nonempty entry: `slice(0, -1)` and `slice(0)` when it has no tab. */
  function ParseEntry(text: string): (string, Entry)
    requires text != ""
  {
    var tab := IndexOf(text, '\t');
    var meta := if tab < 0 then text[..|text| - 1] else text[..tab];
    var path := if tab < 0 then text else text[tab + 1..];
    var fields := Split(meta, ' ');
    (path, Entry(fields[0], if |fields| > 2 then fields[2] else ""))
  }

  function ParseAll(texts: seq<string>): Listing {
    if texts == [] then EMPTY
    else
      var before, last := ParseAll(texts[..|texts| - 1]), texts[|texts| - 1];
      if last == "" then before else var (path, entry) := ParseEntry(last); Put(before, path, entry)
  }

  /** `entries(ref)`. */
  function Entries(listing: string): Listing {
    ParseAll(Split(listing, '\0'))
  }

  /** One line as git prints it. */
  datatype Line = Line(mode: string, kind: string, oid: string, path: string)

  predicate Printable(l: Line) {
    && l.mode != "" && ' ' !in l.mode && ' ' !in l.kind && ' ' !in l.oid
    && '\t' !in l.mode && '\t' !in l.kind && '\t' !in l.oid
    && '\0' !in PrintLine(l)
  }

  function Meta(l: Line): string {
    l.mode + " " + l.kind + " " + l.oid
  }

  function PrintLine(l: Line): string {
    Meta(l) + "\t" + l.path
  }

  function Print(lines: seq<Line>): string {
    if lines == [] then "" else Print(lines[..|lines| - 1]) + PrintLine(lines[|lines| - 1]) + "\0"
  }

  /** What the lines stand for. */
  function Stored(lines: seq<Line>): Listing {
    if lines == [] then EMPTY
    else
      var last := lines[|lines| - 1];
      Put(Stored(lines[..|lines| - 1]), last.path, Entry(last.mode, last.oid))
  }

  lemma {:induction false} IndexIs(head: string, mark: char, tail: string)
    requires mark !in head
    ensures IndexOf(head + [mark] + tail, mark) == |head|
  {
    if head != "" {
      assert (head + [mark] + tail)[1..] == head[1..] + [mark] + tail;
      IndexIs(head[1..], mark, tail);
    }
  }

  lemma ParsePrintedLine(l: Line)
    requires Printable(l)
    ensures PrintLine(l) != "" && ParseEntry(PrintLine(l)) == (l.path, Entry(l.mode, l.oid))
  {
    var text, meta := PrintLine(l), Meta(l);
    assert text[..|meta|] == meta && text[|meta| + 1..] == l.path;
    assert '\t' !in meta;
    IndexIs(meta, '\t', l.path);
    assert text == meta + ['\t'] + l.path;
    MetaFields(l);
    hide IndexOf, Split, Meta;
  }

  lemma MetaFields(l: Line)
    requires ' ' !in l.mode && ' ' !in l.kind && ' ' !in l.oid
    ensures Split(Meta(l), ' ') == [l.mode, l.kind, l.oid]
  {
    hide Split;
    SplitPrefix(l.mode, ' ', l.kind + " " + l.oid);
    SplitPrefix(l.kind, ' ', l.oid);
    SplitWhole(l.oid, ' ');
    assert Meta(l) == l.mode + [' '] + (l.kind + " " + l.oid);
    assert l.kind + " " + l.oid == l.kind + [' '] + l.oid;
  }

  /** An entry without a tab is its own path, and its last character is no part of the words. */
  lemma EntryWithoutTab(text: string)
    requires text != "" && '\t' !in text
    ensures ParseEntry(text).0 == text && ParseEntry(text).1.mode == Split(text[..|text| - 1], ' ')[0]
  {
  }

  lemma {:induction false} SplitPrinted(lines: seq<Line>)
    requires forall i :: 0 <= i < |lines| ==> Printable(lines[i])
    ensures Split(Print(lines), '\0') == Texts(lines) + [""]
  {
    if lines != [] {
      var init, last := lines[..|lines| - 1], lines[|lines| - 1];
      SplitPrinted(init);
      SplitAppend(Print(init), '\0', PrintLine(last));
      assert Print(lines) == Print(init) + PrintLine(last) + ['\0'];
    }
  }

  function Texts(lines: seq<Line>): seq<string> {
    seq(|lines|, i requires 0 <= i < |lines| => PrintLine(lines[i]))
  }

  /** Appending a terminated part to a text that ends in a mark adds one part. */
  lemma {:induction false} SplitAppend(text: string, mark: char, part: string)
    requires mark !in part && Split(text, mark)[|Split(text, mark)| - 1] == ""
    ensures Split(text + part + [mark], mark) ==
            Split(text, mark)[..|Split(text, mark)| - 1] + [part, ""]
  {
    if text == "" {
      SplitPrefix(part, mark, "");
      assert text + part + [mark] == part + [mark] + "";
    } else {
      var parts := Split(text[1..], mark);
      assert (text + part + [mark])[1..] == text[1..] + part + [mark];
      SplitAppend(text[1..], mark, part);
    }
  }

  /** ROUND TRIP. `entries` reads back what git printed, also when paths hold tabs. */
  lemma EntriesInvertPrinting(lines: seq<Line>)
    requires forall i :: 0 <= i < |lines| ==> Printable(lines[i])
    ensures Entries(Print(lines)) == Stored(lines)
  {
    hide Split, ParseAll, Print, PrintLine, Printable;
    SplitPrinted(lines);
    var texts := Texts(lines);
    assert (texts + [""])[..|lines|] == texts;
    ParseTexts(lines);
    assert ParseAll(texts + [""]) == ParseAll(texts) by { ParseBlank(texts); }
  }

  lemma ParseBlank(texts: seq<string>)
    ensures ParseAll(texts + [""]) == ParseAll(texts)
  {
    assert (texts + [""])[..|texts|] == texts;
  }

  lemma {:induction false} ParseTexts(lines: seq<Line>)
    requires forall i :: 0 <= i < |lines| ==> Printable(lines[i])
    ensures ParseAll(Texts(lines)) == Stored(lines)
  {
    hide ParseEntry, PrintLine, Printable;
    if lines != [] {
      var init, last := lines[..|lines| - 1], lines[|lines| - 1];
      ParseTexts(init);
      ParsePrintedLine(last);
      assert Texts(lines)[..|init|] == Texts(init);
    }
  }

  /* ---- the changes between two listings ---- */

  /** Optional fields are JavaScript's `undefined`. */
  datatype Change = Change(path: string, oldMode: Option<string>, mode: Option<string>, contents: Option<string>)

  function Lookup(listing: Listing, path: string): Option<Entry> {
    if path in listing.at then Some(listing.at[path]) else None
  }

  function ModeOf(entry: Option<Entry>): Option<string> {
    if entry.Some? then Some(entry.value.mode) else None
  }

  /** `new Set([...a, ...b])` for keys that are unique in each. */
  function NewKeys(known: seq<string>, more: seq<string>): seq<string> {
    if more == [] then []
    else
      var rest, last := NewKeys(known, more[..|more| - 1]), more[|more| - 1];
      if last in known then rest else rest + [last]
  }

  function ChangeOf(before: Listing, after: Listing, blob: string -> string, path: string): Change {
    var was, now := Lookup(before, path), Lookup(after, path);
    Change(path, ModeOf(was), ModeOf(now),
           if now.Some? && now.value.mode == FILE_MODE then Some(blob(now.value.oid)) else None)
  }

  function ChangesAt(before: Listing, after: Listing, blob: string -> string, paths: seq<string>): seq<Change> {
    if paths == [] then []
    else
      var rest, last := ChangesAt(before, after, blob, paths[..|paths| - 1]), paths[|paths| - 1];
      if Lookup(before, last) == Lookup(after, last) then rest else rest + [ChangeOf(before, after, blob, last)]
  }

  /** `changes`. */
  function Changes(before: Listing, after: Listing, blob: string -> string): seq<Change> {
    ChangesAt(before, after, blob, before.keys + NewKeys(before.keys, after.keys))
  }

  /** The keys of a Map are its domain, each once. */
  ghost predicate Valid(listing: Listing) {
    && (forall path :: path in listing.keys <==> path in listing.at)
    && Distinct(listing.keys)
  }

  ghost predicate Distinct(keys: seq<string>) {
    forall i, j :: 0 <= i < j < |keys| ==> keys[i] != keys[j]
  }

  lemma {:induction false} StoredIsValid(lines: seq<Line>)
    ensures Valid(Stored(lines))
  {
    if lines != [] {
      StoredIsValid(lines[..|lines| - 1]);
    }
  }

  lemma {:induction false} NewKeysAre(known: seq<string>, more: seq<string>)
    requires Distinct(known) && Distinct(more)
    ensures forall path :: path in NewKeys(known, more) <==> path in more && path !in known
    ensures Distinct(known + NewKeys(known, more))
  {
    if more != [] {
      var init, last := more[..|more| - 1], more[|more| - 1];
      NewKeysAre(known, init);
      assert more == init + [last];
      assert last !in init;
      assert known + (NewKeys(known, init) + [last]) == (known + NewKeys(known, init)) + [last];
    }
  }

  lemma ChangesAtStep(before: Listing, after: Listing, blob: string -> string, init: seq<string>, last: string)
    ensures ChangesAt(before, after, blob, init + [last]) ==
            ChangesAt(before, after, blob, init) +
            if Lookup(before, last) == Lookup(after, last) then [] else [ChangeOf(before, after, blob, last)]
    ensures ChangeOf(before, after, blob, last).path == last
  {
    assert (init + [last])[..|init|] == init;
  }

  /** Every change is at one of the paths, whose entries differ, and says how. */
  lemma {:induction false} ChangesAtSound(before: Listing, after: Listing, blob: string -> string, paths: seq<string>)
    ensures forall change :: change in ChangesAt(before, after, blob, paths) ==>
              change.path in paths && Lookup(before, change.path) != Lookup(after, change.path) &&
              change == ChangeOf(before, after, blob, change.path)
  {
    hide Lookup, ChangeOf;
    if paths != [] {
      var init, last := paths[..|paths| - 1], paths[|paths| - 1];
      assert paths == init + [last];
      ChangesAtSound(before, after, blob, init);
      ChangesAtStep(before, after, blob, init, last);
    }
  }

  lemma {:induction false} ChangesAtDistinct(before: Listing, after: Listing, blob: string -> string,
                                             paths: seq<string>)
    requires Distinct(paths)
    ensures var changes := ChangesAt(before, after, blob, paths);
            forall i, j :: 0 <= i < j < |changes| ==> changes[i].path != changes[j].path
  {
    hide Lookup, ChangeOf;
    if paths != [] {
      var init, last := paths[..|paths| - 1], paths[|paths| - 1];
      assert paths == init + [last] && last !in init;
      ChangesAtDistinct(before, after, blob, init);
      ChangesAtSound(before, after, blob, init);
      ChangesAtStep(before, after, blob, init, last);
      var rest := ChangesAt(before, after, blob, init);
      assert forall i :: 0 <= i < |rest| ==> rest[i] in rest;
    }
  }

  lemma {:induction false} ChangeAt(before: Listing, after: Listing, blob: string -> string, paths: seq<string>,
                                    path: string)
    requires path in paths && Lookup(before, path) != Lookup(after, path)
    ensures ChangeOf(before, after, blob, path) in ChangesAt(before, after, blob, paths)
  {
    hide Lookup, ChangeOf;
    var init, last := paths[..|paths| - 1], paths[|paths| - 1];
    assert paths == init + [last];
    ChangesAtStep(before, after, blob, init, last);
    if path in init {
      ChangeAt(before, after, blob, init, path);
    }
  }

  lemma DifferenceIsListed(before: Listing, after: Listing, blob: string -> string, path: string)
    requires Valid(before) && Valid(after) && Lookup(before, path) != Lookup(after, path)
    ensures var changes := Changes(before, after, blob);
            exists i :: 0 <= i < |changes| && changes[i].path == path
  {
    NewKeysAre(before.keys, after.keys);
    ChangeAt(before, after, blob, before.keys + NewKeys(before.keys, after.keys), path);
    ChangesAtStep(before, after, blob, [], path);
    hide ChangeOf, NewKeys, ChangesAt, Valid, Lookup;
    var changes := Changes(before, after, blob);
    var i :| 0 <= i < |changes| && changes[i] == ChangeOf(before, after, blob, path);
  }

  /** EXACT DIFF. `changes` has each path at most once and exactly the paths whose
      entries differ, each with its two modes. */
  lemma ChangesAreTheDifference(before: Listing, after: Listing, blob: string -> string)
    requires Valid(before) && Valid(after)
    ensures var changes := Changes(before, after, blob);
            && (forall i, j :: 0 <= i < j < |changes| ==> changes[i].path != changes[j].path)
            && (forall i :: 0 <= i < |changes| ==> Lookup(before, changes[i].path) != Lookup(after, changes[i].path))
            && (forall i :: 0 <= i < |changes| ==> changes[i] == ChangeOf(before, after, blob, changes[i].path))
            && (forall path :: Lookup(before, path) != Lookup(after, path) ==>
                 exists i :: 0 <= i < |changes| && changes[i].path == path)
  {
    NewKeysAre(before.keys, after.keys);
    ChangesAtSound(before, after, blob, before.keys + NewKeys(before.keys, after.keys));
    ChangesAtDistinct(before, after, blob, before.keys + NewKeys(before.keys, after.keys));
    hide ChangeOf, NewKeys, Lookup, ChangesAt, Valid, Distinct;
    var changes := Changes(before, after, blob);
    assert changes == ChangesAt(before, after, blob, before.keys + NewKeys(before.keys, after.keys));
    assert forall i :: 0 <= i < |changes| ==> changes[i] in changes;
    forall path | Lookup(before, path) != Lookup(after, path)
      ensures exists i :: 0 <= i < |changes| && changes[i].path == path
    {
      DifferenceIsListed(before, after, blob, path);
    }
  }

  /* ---- admission and split of the changes ---- */

  datatype Addition = Addition(path: string, contents: Option<string>)

  /** A string that JavaScript takes for true. */
  predicate Present(s: Option<string>) {
    s.Some? && s.value != ""
  }

  predicate Supported(change: Change) {
    (Present(change.oldMode) ==> change.oldMode.value == FILE_MODE) &&
      (Present(change.mode) ==> change.mode.value == FILE_MODE)
  }

  function Additions(changes: seq<Change>): seq<Addition> {
    if changes == [] then []
    else
      var rest, last := Additions(changes[..|changes| - 1]), changes[|changes| - 1];
      if Present(last.mode) then rest + [Addition(last.path, last.contents)] else rest
  }

  function Deletions(changes: seq<Change>): seq<string> {
    if changes == [] then []
    else
      var rest, last := Deletions(changes[..|changes| - 1]), changes[|changes| - 1];
      if Present(last.mode) then rest else rest + [last.path]
  }

  /** The loop of `publishHammerTree`; None stands for the thrown error. */
  method SplitChanges(changes: seq<Change>) returns (split: Option<(seq<Addition>, seq<string>)>)
    ensures split.Some? <==> forall i :: 0 <= i < |changes| ==> Supported(changes[i])
    ensures split.Some? ==> split.value == (Additions(changes), Deletions(changes))
  {
    var additions: seq<Addition>, deletions: seq<string> := [], [];
    for i := 0 to |changes|
      invariant additions == Additions(changes[..i]) && deletions == Deletions(changes[..i])
      invariant forall k :: 0 <= k < i ==> Supported(changes[k])
    {
      assert changes[..i + 1][..i] == changes[..i];
      var change := changes[i];
      if (Present(change.oldMode) && change.oldMode.value != FILE_MODE) ||
         (Present(change.mode) && change.mode.value != FILE_MODE) {
        return None;
      }
      if Present(change.mode) {
        additions := additions + [Addition(change.path, change.contents)];
      } else {
        deletions := deletions + [change.path];
      }
    }
    assert changes[..|changes|] == changes;
    return Some((additions, deletions));
  }

  /* ---- applying the changes ---- */

  /** A commit made from a tree: the deletions leave it, each addition becomes a
      regular file whose object id is the hash of its contents. */
  function Deleted(tree: map<string, Entry>, deletions: seq<string>): map<string, Entry> {
    tree - set path | path in deletions
  }

  function Added(tree: map<string, Entry>, additions: seq<Addition>, hash: string -> string): map<string, Entry> {
    if additions == [] then tree
    else
      var rest, last := Added(tree, additions[..|additions| - 1], hash), additions[|additions| - 1];
      rest[last.path := Entry(FILE_MODE, hash(if last.contents.Some? then last.contents.value else ""))]
  }

  function Commit(tree: map<string, Entry>, additions: seq<Addition>, deletions: seq<string>, hash: string -> string)
    : map<string, Entry>
  {
    Added(Deleted(tree, deletions), additions, hash)
  }

  /** The committed tree, path by path. */
  function Committed(tree: map<string, Entry>, changes: seq<Change>, hash: string -> string): map<string, Entry> {
    Commit(tree, Additions(changes), Deletions(changes), hash)
  }

  lemma {:induction false} AddedAt(tree: map<string, Entry>, changes: seq<Change>, hash: string -> string, path: string)
    requires forall i, j :: 0 <= i < j < |changes| ==> changes[i].path != changes[j].path
    ensures var result := Added(tree, Additions(changes), hash);
            && (forall i :: 0 <= i < |changes| && changes[i].path == path && Present(changes[i].mode) ==>
                 path in result && result[path] == NewEntry(changes[i], hash))
            && ((forall i :: 0 <= i < |changes| && changes[i].path == path ==> !Present(changes[i].mode)) ==>
                 (path in result <==> path in tree) && (path in tree ==> result[path] == tree[path]))
  {
    hide NewEntry, Present;
    if changes != [] {
      var init, last := changes[..|changes| - 1], changes[|changes| - 1];
      AddedAt(tree, init, hash, path);
      AddedStep(tree, changes, hash);
      hide Added, Additions;
      forall i | 0 <= i < |init| ensures init[i] == changes[i] && changes[i].path != last.path { }
    }
  }

  function NewEntry(change: Change, hash: string -> string): Entry {
    Entry(FILE_MODE, hash(if change.contents.Some? then change.contents.value else ""))
  }

  lemma AddedStep(tree: map<string, Entry>, changes: seq<Change>, hash: string -> string)
    requires changes != []
    ensures var init, last := changes[..|changes| - 1], changes[|changes| - 1];
            var before := Added(tree, Additions(init), hash);
            Added(tree, Additions(changes), hash) ==
            if Present(last.mode) then before[last.path := NewEntry(last, hash)] else before
  {
    var init, last := changes[..|changes| - 1], changes[|changes| - 1];
    if Present(last.mode) {
      assert Additions(changes)[..|Additions(init)|] == Additions(init);
    }
  }

  lemma {:induction false} DeletionsAre(changes: seq<Change>, path: string)
    ensures path in Deletions(changes) <==>
            exists i :: 0 <= i < |changes| && changes[i].path == path && !Present(changes[i].mode)
  {
    hide Present;
    if changes != [] {
      var init, last := changes[..|changes| - 1], changes[|changes| - 1];
      DeletionsAre(init, path);
      if path in Deletions(init) {
        var i :| 0 <= i < |init| && init[i].path == path && !Present(init[i].mode);
        assert changes[i] == init[i];
      }
      if exists i :: 0 <= i < |changes| && changes[i].path == path && !Present(changes[i].mode) {
        var i :| 0 <= i < |changes| && changes[i].path == path && !Present(changes[i].mode);
        assert i < |init| ==> init[i] == changes[i];
      }
    }
  }

  /** Content addressing: an object's id is the hash of what reading it gives, and modes are not empty. */
  ghost predicate Addressed(listing: Listing, blob: string -> string, hash: string -> string) {
    forall path :: path in listing.at ==>
      listing.at[path].mode != "" && hash(blob(listing.at[path].oid)) == listing.at[path].oid
  }

  /** Committing the changes on the old tree agrees with the new tree at a path
      exactly when the path did not change, went away, or is now a regular file. */
  lemma CommittedAt(before: Listing, after: Listing, blob: string -> string, hash: string -> string, path: string)
    requires Valid(before) && Valid(after) && Addressed(after, blob, hash)
    ensures var result := Committed(before.at, Changes(before, after, blob), hash);
            (if path in result then Some(result[path]) else None) == Lookup(after, path) <==>
            Lookup(before, path) == Lookup(after, path) || path !in after.at || after.at[path].mode == FILE_MODE
  {
    var changes := Changes(before, after, blob);
    ChangesAreTheDifference(before, after, blob);
    DeletionsAre(changes, path);
    AddedAt(Deleted(before.at, Deletions(changes)), changes, hash, path);
    hide Changes, Additions, Deletions, Added, Valid;
    if Lookup(before, path) != Lookup(after, path) {
      var i :| 0 <= i < |changes| && changes[i].path == path;
      assert changes[i] == ChangeOf(before, after, blob, path);
    }
  }

  /** DIFF AND APPLY. Committing the listed changes on the remote tree gives the local
      tree exactly when every changed path is absent from it or a regular file in it. */
  lemma CommitGivesLocalTree(before: Listing, after: Listing, blob: string -> string, hash: string -> string)
    requires Valid(before) && Valid(after) && Addressed(after, blob, hash)
    ensures Committed(before.at, Changes(before, after, blob), hash) == after.at <==>
            forall path :: path in after.at && Lookup(before, path) != Lookup(after, path) ==>
              after.at[path].mode == FILE_MODE
  {
    hide Changes, Committed, Valid;
    var result := Committed(before.at, Changes(before, after, blob), hash);
    forall path
      ensures (if path in result then Some(result[path]) else None) == Lookup(after, path) <==>
              Lookup(before, path) == Lookup(after, path) || path !in after.at || after.at[path].mode == FILE_MODE
    {
      CommittedAt(before, after, blob, hash, path);
    }
    if forall path :: path in after.at && Lookup(before, path) != Lookup(after, path) ==>
       after.at[path].mode == FILE_MODE {
      forall path
        ensures (path in result <==> path in after.at) && (path in result ==> result[path] == after.at[path])
      {
        assert (if path in result then Some(result[path]) else None) == Lookup(after, path);
      }
      assert result == after.at;
    }
  }

  /** The admission of the code is sufficient: when every change is supported, the
      commit is the local tree. */
  lemma SupportedChangesGiveLocalTree(before: Listing, after: Listing, blob: string -> string, hash: string -> string)
    requires Valid(before) && Valid(after) && Addressed(after, blob, hash)
    requires forall i :: 0 <= i < |Changes(before, after, blob)| ==> Supported(Changes(before, after, blob)[i])
    ensures Committed(before.at, Changes(before, after, blob), hash) == after.at
  {
    var changes := Changes(before, after, blob);
    ChangesAreTheDifference(before, after, blob);
    CommitGivesLocalTree(before, after, blob, hash);
    hide Changes, Committed, Valid;
    forall path | path in after.at && Lookup(before, path) != Lookup(after, path)
      ensures after.at[path].mode == FILE_MODE
    {
      var i :| 0 <= i < |changes| && changes[i].path == path;
      assert changes[i] == ChangeOf(before, after, blob, path);
    }
  }

  /* ---- the publication ---- */

  datatype Ancestry = Descends | Diverged | Unknown

  /** What the script learns about the local repository. `parentFields` counts the
      words of `rev-list --parents -n 1 HEAD`; `fetchedTree` is the tree of a commit
      after fetching it, if the fetch works; `resets` says that `reset --hard` to a
      commit works. */
  datatype Local = Local(dirty: bool, ancestry: Ancestry, count: string, parentFields: nat, listing: string,
                         tree: string,
                         blob: string -> string, fetchedTree: string -> Option<string>, resets: string -> bool)

  datatype Mutation = Mutation(expectedHead: string, additions: seq<Addition>, deletions: seq<string>)

  /** The head that the live pull request has, if it can be read, the listing of its
      tree, the commit that a mutation creates, and the tree that a commit is reported
      to have. */
  class Remote {
    const live: bool
    const head: string
    const listing: string
    const reply: Option<string>
    const treeOf: string -> Option<string>
    var sent: seq<Mutation>

    constructor (live: bool, head: string, listing: string, reply: Option<string>, treeOf: string -> Option<string>)
      ensures this.live == live && this.head == head && this.listing == listing
      ensures this.reply == reply && this.treeOf == treeOf && sent == []
    {
      this.live, this.head, this.listing, this.reply, this.treeOf, sent := live, head, listing, reply, treeOf, [];
    }

    method CreateCommit(mutation: Mutation) returns (commit: Option<string>)
      modifies this
      ensures sent == old(sent) + [mutation] && commit == reply
    {
      sent := sent + [mutation];
      commit := reply;
    }
  }

  /** A fallback names a head to review and, once the remote tree was checked, the
      publication that must not be lost. */
  datatype Route =
    | Unchanged(head: string)
    | Published(head: string)
    | ReReview(fallbackHead: Option<string>, pushedHead: Option<string>)

  /** A clean tree on top of the remote head, with no commit or one single-parent commit. */
  predicate Admitted(local: Local) {
    !local.dirty && local.ancestry == Descends &&
      (local.count == "0" || (local.count == "1" && local.parentFields == 2))
  }

  /** The changes that would be sent. */
  function Pending(remoteListing: string, local: Local): seq<Change> {
    Changes(Entries(remoteListing), Entries(local.listing), local.blob)
  }

  predicate Sendable(remoteListing: string, local: Local) {
    Admitted(local) && Pending(remoteListing, local) != [] && forall i :: 0 <= i < |Pending(remoteListing, local)| ==>
      Supported(Pending(remoteListing, local)[i])
  }

  /** A commit is created. */
  predicate Sends(remote: Remote, local: Local) {
    remote.live && Sendable(remote.listing, local)
  }

  /** The created commit, when the remote reports the local tree for it. */
  function CheckedHead(remote: Remote, local: Local): Option<string> {
    if Sends(remote, local) && remote.reply.Some? && remote.treeOf(remote.reply.value) == Some(local.tree)
    then remote.reply else None
  }

  /** The script and `publishHammerTree`. At most one commit is created, only from an
      admitted repository and supported changes and always against the live head; it
      counts as published only if the remote and the fetched tree are the local tree
      and the checkout moves to it. Every other outcome after it falls back to the new
      commit, and remembers it once the remote tree was checked. */
  method Publish(local: Local, remote: Remote) returns (route: Route)
    modifies remote
    ensures remote.sent == old(remote.sent) +
              if Sends(remote, local)
              then [Mutation(remote.head, Additions(Pending(remote.listing, local)),
                             Deletions(Pending(remote.listing, local)))]
              else []
    ensures remote.sent != old(remote.sent) ==>
              remote.live && !local.dirty && local.ancestry == Descends &&
              (local.count == "0" || (local.count == "1" && local.parentFields == 2))
    ensures (!remote.live || local.dirty || local.ancestry == Diverged || local.ancestry == Unknown ||
             local.count !in {"0", "1"} || (local.count == "1" && local.parentFields != 2)) ==>
              route.ReReview? && remote.sent == old(remote.sent)
    ensures route.Unchanged? <==> remote.live && Admitted(local) && Pending(remote.listing, local) == []
    ensures route.Unchanged? ==> route.head == remote.head
    ensures route.Published? <==>
              CheckedHead(remote, local).Some? &&
              local.fetchedTree(remote.reply.value) == Some(local.tree) && local.resets(remote.reply.value)
    ensures route.Published? ==> Some(route.head) == remote.reply
    ensures route.ReReview? ==>
              route.pushedHead == CheckedHead(remote, local) &&
              route.fallbackHead == if local.dirty || !remote.live then None
                                    else if Sends(remote, local) && remote.reply.Some? then remote.reply
                                    else Some(remote.head)
  {
    hide Changes, Entries, Additions, Deletions, Supported;
    if local.dirty || !remote.live { return ReReview(None, None); }
    var fallback := ReReview(Some(remote.head), None);
    if local.ancestry != Descends { return fallback; }
    if local.count != "0" && (local.count != "1" || local.parentFields != 2) { return fallback; }
    var before, after := Entries(remote.listing), Entries(local.listing);
    var changes := Changes(before, after, local.blob);
    var split := SplitChanges(changes);
    if split.None? { return fallback; }
    if changes == [] { return Unchanged(remote.head); }
    var commit := remote.CreateCommit(Mutation(remote.head, split.value.0, split.value.1));
    if commit.None? { return fallback; }
    fallback := ReReview(commit, None);
    if remote.treeOf(commit.value) != Some(local.tree) { return fallback; }
    fallback := ReReview(commit, commit);
    if local.fetchedTree(commit.value) != Some(local.tree) { return fallback; }
    if !local.resets(commit.value) { return fallback; }
    return Published(commit.value);
  }

  /** The modes that are sent: none, or a regular file. */
  predicate PlainMode(mode: Option<string>) {
    mode in {None, Some(""), Some("100644")}
  }

  /** EXACT ADMISSION. A commit is created exactly for a pull request that can be read, a
      clean tree on top of its head, no local commit or a single one with one parent, and
      changes of regular files only, at least one. */
  lemma SendsExactly(remote: Remote, local: Local)
    ensures Sends(remote, local) <==>
            remote.live && !local.dirty && local.ancestry == Descends &&
            (local.count == "0" || (local.count == "1" && local.parentFields == 2)) &&
            Pending(remote.listing, local) != [] &&
            forall change :: change in Pending(remote.listing, local) ==>
              PlainMode(change.oldMode) && PlainMode(change.mode)
  {
    hide Pending;
    var changes := Pending(remote.listing, local);
    forall i | 0 <= i < |changes|
      ensures Supported(changes[i]) <==> PlainMode(changes[i].oldMode) && PlainMode(changes[i].mode)
    {
    }
    hide Supported, PlainMode;
  }

  /** What a change says: the two modes, and the contents of a regular file; a path is
      listed exactly when its presence, mode or object id differs. */
  lemma ChangesSay(before: Listing, after: Listing, blob: string -> string, path: string)
    ensures Lookup(before, path) != Lookup(after, path) <==>
            !(path !in before.at && path !in after.at) &&
            !(path in before.at && path in after.at && before.at[path].mode == after.at[path].mode &&
              before.at[path].oid == after.at[path].oid)
    ensures ChangeOf(before, after, blob, path) ==
            Change(path, if path in before.at then Some(before.at[path].mode) else None,
                   if path in after.at then Some(after.at[path].mode) else None,
                   if path in after.at && after.at[path].mode == "100644" then Some(blob(after.at[path].oid)) else None)
  {
  }

  /** A remote that commits what it is sent reports the tree of the local listing, so
      that the tree check after a supported publication passes. */
  lemma FaithfulRemotePassesTheTreeCheck(remoteLines: seq<Line>, localLines: seq<Line>, local: Local,
                                         hash: string -> string,
                                         treeHash: map<string, Entry> -> string)
    requires forall i :: 0 <= i < |remoteLines| ==> Printable(remoteLines[i])
    requires forall i :: 0 <= i < |localLines| ==> Printable(localLines[i])
    requires local.listing == Print(localLines) && local.tree == treeHash(Stored(localLines).at)
    requires Addressed(Stored(localLines), local.blob, hash)
    requires Sendable(Print(remoteLines), local)
    ensures treeHash(Committed(Stored(remoteLines).at, Pending(Print(remoteLines), local), hash)) == local.tree
  {
    hide Printable, Stored, Changes, Committed, Supported, Entries;
    EntriesInvertPrinting(remoteLines);
    EntriesInvertPrinting(localLines);
    StoredIsValid(remoteLines);
    StoredIsValid(localLines);
    SupportedChangesGiveLocalTree(Stored(remoteLines), Stored(localLines), local.blob, hash);
  }
}
