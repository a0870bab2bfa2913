/** Kernel census of a process group (`group_snapshot`) with growing buffers, and
    the request loop around it (`serve`). */
module ProcessCensus {
  import opened Common

  /** The fields of one kernel record that the census reads. */
  datatype Record = Record(pid: int, pgid: int, stat: int, startSec: int, startUsec: int)

  datatype Member = Member(pid: int, startSec: int, startUsec: int)

  /** One kernel call: success with the number of bytes it reports and the records it
      writes, or an errno. */
  datatype KernelReply = Filled(size: nat, records: seq<Record>) | Failed(errno: nat)

  const RECORD_SIZE := 648
  const CAPACITIES: seq<nat> := [64, 1024, 16384, 65536]
  const SZOMB := 5
  const ENOMEM := 12
  const EIO := 5
  const EOVERFLOW := 84
  const BLANK := Record(0, 0, 0, 0, 0)

  /** The kernel: what it answers to its k-th call, and how often it was called. */
  class Kernel {
    const replies: nat -> KernelReply
    var calls: nat

    constructor (replies: nat -> KernelReply)
      ensures this.replies == replies && calls == 0
    {
      this.replies, calls := replies, 0;
    }

    /** `sysctl` into a buffer; None is success with the reported size. */
    method Sysctl(buffer: array<Record>) returns (errno: Option<nat>, size: nat)
      modifies this, buffer
      ensures calls == old(calls) + 1
      ensures errno.Some? <==> replies(old(calls)).Failed?
      ensures errno.Some? ==> errno.value == replies(old(calls)).errno
      ensures errno.None? ==> size == replies(old(calls)).size
      ensures errno.None? ==> forall i :: 0 <= i < buffer.Length ==>
              buffer[i] == RecordAt(replies(old(calls)).records, i)
    {
      var reply := replies(calls);
      calls := calls + 1;
      match reply {
        case Failed(e) => return Some(e), 0;
        case Filled(n, records) =>
          forall i | 0 <= i < buffer.Length { buffer[i] := RecordAt(records, i); }
          return None, n;
      }
    }
  }

  /** The buffer starts zeroed, and the kernel writes no more records than fit. */
  function RecordAt(records: seq<Record>, i: nat): Record {
    if i < |records| then records[i] else BLANK
  }

  function Buffer(records: seq<Record>, capacity: nat): seq<Record> {
    seq(capacity, i requires 0 <= i < capacity => RecordAt(records, i))
  }

  /* ---- the specification ---- */

  /** The census of one group: its members, or the errno that is raised. */
  datatype Census = Members(members: seq<Member>) | Raised(errno: nat)

  predicate Consistent(r: Record, pgid: int) {
    r.pid > 0 && r.pgid == pgid && r.startSec > 0 && 0 <= r.startUsec < 1_000_000
  }

  function MemberOf(r: Record): Member {
    Member(r.pid, r.startSec, r.startUsec)
  }

  function Living(records: seq<Record>): seq<Member> {
    if records == [] then []
    else
      var rest, last := Living(records[..|records| - 1]), records[|records| - 1];
      if last.stat == SZOMB then rest else rest + [MemberOf(last)]
  }

  /** What a successful call with a capacity amounts to. */
  function CensusOf(reply: KernelReply, capacity: nat, pgid: int): Census
    requires reply.Filled?
  {
    if reply.size % RECORD_SIZE != 0 || reply.size > capacity * RECORD_SIZE then Raised(EIO)
    else
      var count := reply.size / RECORD_SIZE;
      var records := Buffer(reply.records, capacity)[..count];
      if exists i :: 0 <= i < |records| && !Consistent(records[i], pgid) then Raised(EIO) else Members(Living(records))
  }

  /** The census from the k-th capacity on, asking the kernel from call `from` on,
      and how many calls it takes. */
  function CensusFrom(replies: nat -> KernelReply, from: nat, k: nat, pgid: int): (r: (Census, nat))
    requires k <= |CAPACITIES|
    ensures r.1 <= |CAPACITIES| - k
    decreases |CAPACITIES| - k
  {
    if k == |CAPACITIES| then (Raised(EOVERFLOW), 0)
    else
      match replies(from)
      case Filled(_, _) => (CensusOf(replies(from), CAPACITIES[k], pgid), 1)
      case Failed(errno) =>
        if errno == ENOMEM then var (census, calls) := CensusFrom(replies, from + 1, k + 1, pgid); (census, calls + 1)
        else (Raised(if errno == 0 then EIO else errno), 1)
  }

  /* ---- the implementation ---- */

  method CollectMembers(buffer: array<Record>, count: nat, pgid: int) returns (census: Census)
    requires count <= buffer.Length
    ensures census == if exists i :: 0 <= i < count && !Consistent(buffer[i], pgid) then Raised(EIO)
                      else Members(Living(buffer[..count]))
  {
    var members: seq<Member> := [];
    for i := 0 to count
      invariant forall k :: 0 <= k < i ==> Consistent(buffer[k], pgid)
      invariant members == Living(buffer[..i])
    {
      assert buffer[..i + 1][..i] == buffer[..i];
      var info := buffer[i];
      if info.pid <= 0 || info.pgid != pgid || info.startSec <= 0 || !(0 <= info.startUsec < 1_000_000) {
        return Raised(EIO);
      }
      if info.stat != SZOMB {
        members := members + [Member(info.pid, info.startSec, info.startUsec)];
      }
    }
    return Members(members);
  }

  /** One successful call: the checks and the member loop. */
  method TakeSnapshot(records: array<Record>, size: nat, pgid: int, ghost reply: KernelReply) returns (census: Census)
    requires reply.Filled? && size == reply.size
    requires forall i :: 0 <= i < records.Length ==> records[i] == RecordAt(reply.records, i)
    ensures census == CensusOf(reply, records.Length, pgid)
  {
    hide Consistent, Living, RecordAt;
    if size % RECORD_SIZE != 0 || size > records.Length * RECORD_SIZE { return Raised(EIO); }
    var count := size / RECORD_SIZE;
    assert records[..] == Buffer(reply.records, records.Length);
    assert records[..count] == Buffer(reply.records, records.Length)[..count];
    census := CollectMembers(records, count, pgid);
    assert forall i :: 0 <= i < count ==> records[..count][i] == records[i];
  }

  /** `group_snapshot(pgid, sysctl)`: at most four kernel calls. */
  method GroupSnapshot(pgid: int, kernel: Kernel) returns (census: Census)
    modifies kernel
    ensures (census, kernel.calls - old(kernel.calls)) == CensusFrom(kernel.replies, old(kernel.calls), 0, pgid)
    ensures old(kernel.calls) <= kernel.calls <= old(kernel.calls) + 4
  {
    hide CensusOf, CensusFrom;
    ghost var start := kernel.calls;
    for k := 0 to |CAPACITIES|
      invariant kernel.calls == start + k
      invariant CensusFrom(kernel.replies, start, 0, pgid) ==
                (CensusFrom(kernel.replies, start + k, k, pgid).0, CensusFrom(kernel.replies, start + k, k, pgid).1 + k)
    {
      CensusStep(kernel.replies, start + k, k, pgid);
      var records := new Record[CAPACITIES[k]](i => BLANK);
      ghost var reply := kernel.replies(kernel.calls);
      var errno, size := kernel.Sysctl(records);
      if errno.None? {
        census := TakeSnapshot(records, size, pgid, reply);
        return census;
      }
      if errno.value != ENOMEM { return Raised(if errno.value == 0 then EIO else errno.value); }
    }
    CensusExhausted(kernel.replies, start + |CAPACITIES|, pgid);
    return Raised(EOVERFLOW);
  }

  lemma CensusStep(replies: nat -> KernelReply, from: nat, k: nat, pgid: int)
    requires k < |CAPACITIES|
    ensures CensusFrom(replies, from, k, pgid) ==
            match replies(from)
            case Filled(_, _) => (CensusOf(replies(from), CAPACITIES[k], pgid), 1)
            case Failed(errno) =>
              if errno == ENOMEM
              then (CensusFrom(replies, from + 1, k + 1, pgid).0, CensusFrom(replies, from + 1, k + 1, pgid).1 + 1)
              else (Raised(if errno == 0 then EIO else errno), 1)
  {
    hide CensusOf;
  }

  lemma CensusExhausted(replies: nat -> KernelReply, from: nat, pgid: int)
    ensures CensusFrom(replies, from, |CAPACITIES|, pgid) == (Raised(EOVERFLOW), 0)
  {
  }

  /* ---- unknown never becomes empty ---- */

  /** The kernel reports that the buffer was too small. */
  predicate Truncated(replies: nat -> KernelReply, call: nat) {
    replies(call) == Failed(12)
  }

  /** The k-th call is the first that does not report a truncated buffer. */
  ghost predicate FirstAnswer(replies: nat -> KernelReply, from: nat, k: nat) {
    && k < 4
    && (forall call: nat :: from <= call < from + k ==> Truncated(replies, call))
    && !Truncated(replies, from + k)
  }

  /** A record of the group with a plausible identity and start time. */
  predicate Plausible(r: Record, pgid: int) {
    r.pid > 0 && r.pgid == pgid && r.startSec > 0 && r.startUsec >= 0 && r.startUsec <= 999_999
  }

  /** A successful, aligned and consistent snapshot of records of 648 bytes that fits its
      buffer, which was zero where the kernel wrote nothing. */
  ghost predicate Sound(reply: KernelReply, capacity: nat, pgid: int, records: seq<Record>) {
    && reply.Filled?
    && reply.size == |records| * 648 && |records| <= capacity
    && (forall i :: 0 <= i < |records| ==>
          records[i] == if i < |reply.records| then reply.records[i] else Record(0, 0, 0, 0, 0))
    && forall i :: 0 <= i < |records| ==> Plausible(records[i], pgid)
  }

  /** A sound snapshot whose living records are these members. */
  ghost predicate SoundMembers(reply: KernelReply, capacity: nat, pgid: int, members: seq<Member>) {
    exists records :: Sound(reply, capacity, pgid, records) && members == Living(records)
  }

  lemma CensusOfSound(reply: KernelReply, capacity: nat, pgid: int, members: seq<Member>)
    ensures SoundMembers(reply, capacity, pgid, members) <==>
            reply.Filled? && CensusOf(reply, capacity, pgid) == Members(members)
  {
    hide Living;
    assert forall r: Record :: Consistent(r, pgid) <==> Plausible(r, pgid);
    hide Consistent, Plausible;
    if reply.Filled? && CensusOf(reply, capacity, pgid) == Members(members) {
      var records := Buffer(reply.records, capacity)[..reply.size / RECORD_SIZE];
      assert Sound(reply, capacity, pgid, records);
    }
    if SoundMembers(reply, capacity, pgid, members) {
      var records :| Sound(reply, capacity, pgid, records) && members == Living(records);
      assert reply.size / RECORD_SIZE == |records| && reply.size % RECORD_SIZE == 0;
      assert records == Buffer(reply.records, capacity)[..|records|];
    }
  }

  lemma {:induction false} CensusAtFirstAnswer(replies: nat -> KernelReply, from: nat, k: nat, i: nat, pgid: int)
    requires FirstAnswer(replies, from, k) && i <= k
    ensures CensusFrom(replies, from + i, i, pgid).0 ==
              match replies(from + k)
              case Filled(_, _) => CensusOf(replies(from + k), CAPACITIES[k], pgid)
              case Failed(errno) => Raised(if errno == 0 then EIO else errno)
    decreases k - i
  {
    hide CensusOf;
    if i < k {
      CensusAtFirstAnswer(replies, from, k, i + 1, pgid);
      assert Truncated(replies, from + i);
    }
  }

  lemma {:induction false} AllTruncated(replies: nat -> KernelReply, from: nat, pgid: int, i: nat)
    requires i <= |CAPACITIES| && forall call: nat :: from <= call < from + |CAPACITIES| ==> Truncated(replies, call)
    ensures CensusFrom(replies, from + i, i, pgid).0 == Raised(EOVERFLOW)
    decreases |CAPACITIES| - i
  {
    hide CensusOf;
    if i < |CAPACITIES| {
      AllTruncated(replies, from, pgid, i + 1);
      assert Truncated(replies, from + i);
    }
  }

  lemma {:induction false} FindFirstAnswer(replies: nat -> KernelReply, from: nat, i: nat) returns (k: nat)
    requires i <= |CAPACITIES| && forall call: nat :: from <= call < from + i ==> Truncated(replies, call)
    ensures FirstAnswer(replies, from, k) ||
            (k == |CAPACITIES| && forall call: nat :: from <= call < from + |CAPACITIES| ==> Truncated(replies, call))
    decreases |CAPACITIES| - i
  {
    k := i;
    if i < |CAPACITIES| && Truncated(replies, from + i) {
      k := FindFirstAnswer(replies, from, i + 1);
    }
  }

  /** The members are the living records of the first snapshot that is no truncation, and it is sound. */
  ghost predicate Counted(replies: nat -> KernelReply, from: nat, k: nat, pgid: int, members: seq<Member>) {
    FirstAnswer(replies, from, k) && SoundMembers(replies(from + k), [64, 1024, 16384, 65536][k], pgid, members)
  }

  /** UNKNOWN NEVER BECOMES EMPTY. The census is a list of members exactly when the
      first call that is not a truncation is a sound snapshot, and the list is then
      the living records of that one snapshot; every other case raises. */
  lemma CensusExactly(replies: nat -> KernelReply, from: nat, pgid: int, members: seq<Member>)
    ensures CensusFrom(replies, from, 0, pgid).0 == Members(members) <==>
            exists k: nat :: Counted(replies, from, k, pgid, members)
  {
    hide CensusOf, SoundMembers, CensusFrom;
    var k := FindFirstAnswer(replies, from, 0);
    if FirstAnswer(replies, from, k) {
      CensusAtFirstAnswer(replies, from, k, 0, pgid);
      CensusOfSound(replies(from + k), CAPACITIES[k], pgid, members);
      assert from + 0 == from;
      assert CensusFrom(replies, from, 0, pgid).0 == Members(members) <==>
             SoundMembers(replies(from + k), CAPACITIES[k], pgid, members);
      assert Counted(replies, from, k, pgid, members) <==>
             SoundMembers(replies(from + k), CAPACITIES[k], pgid, members);
      forall j: nat | Counted(replies, from, j, pgid, members) ensures Counted(replies, from, k, pgid, members) {
        OneFirstAnswer(replies, from, j, k);
      }
    } else {
      AllTruncated(replies, from, pgid, 0);
      NotCounted(replies, from, pgid, members);
      assert from + 0 == from;
      assert CensusFrom(replies, from, 0, pgid).0 != Members(members);
    }
  }

  lemma NotCounted(replies: nat -> KernelReply, from: nat, pgid: int, members: seq<Member>)
    requires forall call: nat :: from <= call < from + |CAPACITIES| ==> Truncated(replies, call)
    ensures forall k: nat :: !Counted(replies, from, k, pgid, members)
  {
    hide SoundMembers;
    forall k: nat ensures !FirstAnswer(replies, from, k) {
      assert k < |CAPACITIES| ==> Truncated(replies, from + k);
    }
  }

  lemma OneFirstAnswer(replies: nat -> KernelReply, from: nat, j: nat, k: nat)
    requires FirstAnswer(replies, from, j) && FirstAnswer(replies, from, k)
    ensures j == k
  {
  }

  /** The members are the records that are not zombies; an empty list means that
      every record of the snapshot is one. */
  lemma {:induction false} LivingExactly(records: seq<Record>)
    ensures forall m :: m in Living(records) <==>
              exists i :: 0 <= i < |records| && records[i].stat != 5 && IsMember(m, records[i])
    ensures Living(records) == [] <==> forall i :: 0 <= i < |records| ==> records[i].stat == 5
  {
    if records != [] {
      var init, last := records[..|records| - 1], records[|records| - 1];
      LivingExactly(init);
      assert records == init + [last];
      forall m ensures m in Living(records) <==>
        exists i :: 0 <= i < |records| && records[i].stat != 5 && IsMember(m, records[i])
      {
        if m in Living(init) {
          var i :| 0 <= i < |init| && init[i].stat != 5 && IsMember(m, init[i]);
          assert records[i] == init[i];
        }
        if i :| 0 <= i < |records| && records[i].stat != 5 && IsMember(m, records[i]) {
          assert i < |init| ==> init[i] == records[i];
        }
      }
    }
  }

  /** The member of a record: its process id and its start time. */
  predicate IsMember(m: Member, r: Record) {
    m.pid == r.pid && m.startSec == r.startSec && m.startUsec == r.startUsec
  }

  /** EXACT FAILURES. Four truncations overflow (84); a first answer that is another
      failure raises its errno, or 5 for none; one that is no sound snapshot raises 5. */
  lemma FailuresExactly(replies: nat -> KernelReply, from: nat, pgid: int)
    ensures (forall call: nat :: from <= call < from + 4 ==> Truncated(replies, call)) ==>
              CensusFrom(replies, from, 0, pgid).0 == Raised(84)
    ensures forall k: nat :: FirstAnswer(replies, from, k) ==>
              CensusFrom(replies, from, 0, pgid).0 ==
              match replies(from + k)
              case Failed(errno) => Raised(if errno == 0 then 5 else errno)
              case Filled(_, _) =>
                var census := CensusFrom(replies, from, 0, pgid).0;
                if census.Members? then census else Raised(5)
  {
    hide CensusFrom, Consistent;
    assert from + 0 == from;
    if forall call: nat :: from <= call < from + 4 ==> Truncated(replies, call) {
      AllTruncated(replies, from, pgid, 0);
    }
    forall k: nat | FirstAnswer(replies, from, k)
      ensures CensusFrom(replies, from, 0, pgid).0 ==
              match replies(from + k)
              case Failed(errno) => Raised(if errno == 0 then 5 else errno)
              case Filled(_, _) =>
                var census := CensusFrom(replies, from, 0, pgid).0;
                if census.Members? then census else Raised(5)
    {
      CensusAtFirstAnswer(replies, from, k, 0, pgid);
    }
  }

  /* ---- the request loop ---- */

  /** A request line: not two words or not a number, or a verb and a process id. */
  datatype Request = Unreadable | Verb(verb: string, pid: int)

  /** `{"ok": ...}` with a group id or the members, or an error by its errno. */
  datatype Answer = Group(pgid: int) | Census(members: seq<Member>) | Invalid | Errno(errno: nat)

  /** What `os.getpgid` says about a process: its group, or an errno. */
  datatype GroupOf = Found(pgid: int) | NotFound(errno: nat)

  function Show(census: Census): Answer {
    match census
    case Members(members) => Answer.Census(members)
    case Raised(errno) => Errno(errno)
  }

  /** The answer to one request when the kernel is next asked for the `from`-th time,
      and the number of kernel calls it takes. */
  function AnswerTo(request: Request, groupOf: int -> GroupOf, replies: nat -> KernelReply, from: nat)
    : (r: (Answer, nat))
    ensures r.1 <= 4
  {
    if request.Unreadable? || request.pid <= 1 then (Invalid, 0)
    else if request.verb == "pgid" then
      (match groupOf(request.pid) case Found(pgid) => Group(pgid) case NotFound(errno) => Errno(errno), 0)
    else if request.verb == "group" then
      var (census, calls) := CensusFrom(replies, from, 0, request.pid);
      (Show(census), calls)
    else (Invalid, 0)
  }

  /** The number of kernel calls before the request at the end of a list. */
  function CallsFor(requests: seq<Request>, groupOf: int -> GroupOf, replies: nat -> KernelReply, from: nat): nat {
    if requests == [] then from
    else
      var before := CallsFor(requests[..|requests| - 1], groupOf, replies, from);
      before + AnswerTo(requests[|requests| - 1], groupOf, replies, before).1
  }

  method AnswerOne(request: Request, groupOf: int -> GroupOf, kernel: Kernel) returns (answer: Answer)
    modifies kernel
    ensures (answer, kernel.calls - old(kernel.calls)) == AnswerTo(request, groupOf, kernel.replies, old(kernel.calls))
    ensures kernel.calls >= old(kernel.calls)
  {
    hide CensusFrom;
    if request.Unreadable? || request.pid <= 1 { return Invalid; }
    if request.verb == "pgid" {
      return match groupOf(request.pid) case Found(pgid) => Group(pgid) case NotFound(errno) => Errno(errno);
    }
    if request.verb == "group" {
      var census := GroupSnapshot(request.pid, kernel);
      return Show(census);
    }
    return Invalid;
  }

  /** `serve`: one answer per request, each from kernel calls of its own that start
      where those of the requests before it ended. */
  method Serve(requests: seq<Request>, groupOf: int -> GroupOf, kernel: Kernel) returns (answers: seq<Answer>)
    modifies kernel
    ensures |answers| == |requests|
    ensures forall k :: 0 <= k < |requests| ==>
              answers[k] == AnswerTo(requests[k], groupOf, kernel.replies,
                                     CallsFor(requests[..k], groupOf, kernel.replies, old(kernel.calls))).0
    ensures kernel.calls == CallsFor(requests, groupOf, kernel.replies, old(kernel.calls))
  {
    hide AnswerTo, CallsFor;
    answers := [];
    ghost var start := kernel.calls;
    assert CallsFor(requests[..0], groupOf, kernel.replies, start) == start by {
      NoCalls(groupOf, kernel.replies, start);
    }
    for i := 0 to |requests|
      invariant |answers| == i
      invariant forall k :: 0 <= k < i ==>
                  answers[k] == AnswerTo(requests[k], groupOf, kernel.replies,
                                         CallsFor(requests[..k], groupOf, kernel.replies, start)).0
      invariant kernel.calls == CallsFor(requests[..i], groupOf, kernel.replies, start)
    {
      CallsStep(requests, i, groupOf, kernel.replies, start);
      var answer := AnswerOne(requests[i], groupOf, kernel);
      answers := answers + [answer];
    }
    assert requests[..|requests|] == requests;
  }

  lemma NoCalls(groupOf: int -> GroupOf, replies: nat -> KernelReply, from: nat)
    ensures CallsFor([], groupOf, replies, from) == from
  {
  }

  lemma CallsStep(requests: seq<Request>, i: nat, groupOf: int -> GroupOf, replies: nat -> KernelReply, from: nat)
    requires i < |requests|
    ensures var before := CallsFor(requests[..i], groupOf, replies, from);
            CallsFor(requests[..i + 1], groupOf, replies, from) ==
              before + AnswerTo(requests[i], groupOf, replies, before).1
  {
    hide AnswerTo;
    assert requests[..i + 1][..i] == requests[..i];
  }

  /** NO CACHE. An answer depends on the kernel calls of its own request only: a kernel
      that answers just those the same gives the same answer. */
  lemma {:induction false} CensusReadsItsOwnCalls(a: nat -> KernelReply, b: nat -> KernelReply, from: nat, k: nat,
                                                  pgid: int)
    requires k <= |CAPACITIES|
    requires forall j: nat :: from <= j < from + CensusFrom(a, from, k, pgid).1 ==> a(j) == b(j)
    ensures CensusFrom(b, from, k, pgid) == CensusFrom(a, from, k, pgid)
    decreases |CAPACITIES| - k
  {
    hide CensusOf;
    if k < |CAPACITIES| {
      assert CensusFrom(a, from, k, pgid).1 >= 1;
      assert a(from) == b(from);
      if a(from) == Failed(ENOMEM) {
        CensusReadsItsOwnCalls(a, b, from + 1, k + 1, pgid);
      }
    }
  }

  lemma AnswerReadsItsOwnCalls(request: Request, groupOf: int -> GroupOf, a: nat -> KernelReply, b: nat -> KernelReply,
                               from: nat)
    requires forall j: nat :: from <= j < from + AnswerTo(request, groupOf, a, from).1 ==> a(j) == b(j)
    ensures AnswerTo(request, groupOf, b, from) == AnswerTo(request, groupOf, a, from)
  {
    hide CensusFrom;
    if request.Verb? && request.pid > 1 && request.verb == "group" {
      CensusReadsItsOwnCalls(a, b, from, 0, request.pid);
    }
  }

  /** EXACT ANSWERS. Unreadable requests, process ids up to 1 and unknown verbs are
      invalid and ask the kernel nothing; the others answer with the group of the process
      or with the census of the group. */
  lemma AnswersExactly(request: Request, groupOf: int -> GroupOf, replies: nat -> KernelReply, from: nat)
    ensures AnswerTo(request, groupOf, replies, from).0 ==
            if request.Unreadable? || request.pid <= 1 || request.verb !in {"pgid", "group"} then Invalid
            else if request.verb == "pgid" then
              if groupOf(request.pid).Found? then Group(groupOf(request.pid).pgid)
              else Errno(groupOf(request.pid).errno)
            else if CensusFrom(replies, from, 0, request.pid).0.Members?
            then Answer.Census(CensusFrom(replies, from, 0, request.pid).0.members)
            else Errno(CensusFrom(replies, from, 0, request.pid).0.errno)
    ensures AnswerTo(request, groupOf, replies, from).1 ==
            if request.Verb? && request.pid > 1 && request.verb == "group"
            then CensusFrom(replies, from, 0, request.pid).1 else 0
  {
    hide CensusFrom;
  }
}
