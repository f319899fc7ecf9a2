// Group commit: DBImpl::Write and BuildBatchGroup in db/db_impl.cc, as steps of concurrent writers.  What happens
// under the mutex is one step; logging, syncing and the memtable insertion happen outside it, one step each.
module GroupCommit {
  import opened Basics
  import opened InternalKeys
  import opened ReadSpec
  import opened MemTables

  type Batch = seq<Operation>

  /** DBImpl::Writer as the caller fills it in; no batch means a request to make room only. */
  datatype Request = Request(batch: Option<Batch>, sync: bool)

  /** WriteBatchInternal::ByteSize. */
  type ByteSize = Batch -> nat

  function OpsOf(r: Request): Batch {
    if r.batch.Some? then r.batch.value else []
  }

  function AllOps(rs: seq<Request>): Batch {
    if rs == [] then [] else AllOps(rs[..|rs| - 1]) + OpsOf(rs[|rs| - 1])
  }

  // ---------------------------------------------------------------- choosing a group

  function MaxGroupSize(first: nat): nat {
    if first <= 0x2_0000 then first + 0x2_0000 else 0x10_0000
  }

  /** Whether the writer at position `i` may still join the group of the writer at the front. */
  predicate Joins(queue: seq<Request>, bytes: ByteSize, i: nat)
    requires 0 < i < |queue|
  {
    && (queue[i].sync ==> queue[0].sync)
    && (queue[i].batch.Some? ==> GroupSize(queue[..i + 1], bytes) <= MaxGroupSize(bytes(OpsOf(queue[0]))))
  }

  function GroupSize(rs: seq<Request>, bytes: ByteSize): nat {
    if rs == [] then 0
    else GroupSize(rs[..|rs| - 1], bytes) + if rs[|rs| - 1].batch.Some? then bytes(rs[|rs| - 1].batch.value) else 0
  }

  /** The group is the longest run from the front in which everyone joins. */
  ghost predicate IsGroup(queue: seq<Request>, bytes: ByteSize, n: nat) {
    && 1 <= n <= |queue| && (forall i :: 1 <= i < n ==> Joins(queue, bytes, i))
    && (n < |queue| ==> !Joins(queue, bytes, n))
  }

  /** A group of more than one batch takes at most 1 MB, and at most 128 KB more than a small first batch. */
  lemma {:induction false} GroupIsBounded(queue: seq<Request>, bytes: ByteSize, n: nat)
    requires queue != [] && queue[0].batch.Some? && 1 <= n <= |queue|
    requires forall i :: 1 <= i < n ==> Joins(queue, bytes, i)
    ensures var first, size := bytes(queue[0].batch.value), GroupSize(queue[..n], bytes);
            && (size <= 0x10_0000 || size == first)
            && (first <= 0x2_0000 ==> size <= first + 0x2_0000)
  {
    assert queue[..n][..n - 1] == queue[..n - 1];
    if n > 1 {
      GroupIsBounded(queue, bytes, n - 1);
      assert Joins(queue, bytes, n - 1);
    } else {
      assert queue[..1][..0] == [];
    }
  }

  /** BuildBatchGroup: the combined batch, and how many writers it stands for. */
  method BuildBatchGroup(queue: seq<Request>, bytes: ByteSize) returns (result: Batch, n: nat)
    requires queue != [] && queue[0].batch.Some?
    ensures IsGroup(queue, bytes, n) && result == AllOps(queue[..n])
  {
    var first := queue[0];
    result := first.batch.value;
    var size := bytes(first.batch.value);
    var maxSize := 0x10_0000;
    if size <= 0x2_0000 {
      maxSize := size + 0x2_0000;
    }
    n := 1;
    assert queue[..1][..0] == [] && queue[..1] == [first];
    while n < |queue|
      invariant 1 <= n <= |queue|
      invariant forall i :: 1 <= i < n ==> Joins(queue, bytes, i)
      invariant result == AllOps(queue[..n]) && size == GroupSize(queue[..n], bytes)
      invariant maxSize == MaxGroupSize(bytes(OpsOf(first)))
    {
      var w := queue[n];
      assert queue[..n + 1][..n] == queue[..n];
      if w.sync && !first.sync {
        break;
      }
      if w.batch.Some? {
        if size + bytes(w.batch.value) > maxSize {
          break;
        }
        size := size + bytes(w.batch.value);
        result := result + w.batch.value;
      }
      n := n + 1;
    }
  }

  // ---------------------------------------------------------------- the state machine

  /** One log record: the file it is in, its first sequence number, its operations, and how many writers it commits. */
  datatype LogRecord = LogRecord(file: nat, first: nat, ops: Batch, from: nat, to: nat)

  /** What the writer at the front of the queue is doing; `n` is the size of its group. */
  datatype Phase = Waiting | Logging(n: nat) | Syncing(n: nat) | Inserting(n: nat) | Finishing(n: nat)

  /** `arrived` lists every call of Write in the order it joined the queue `writers`, `acknowledged` those that
      returned. */
  datatype State = State(arrived: seq<Request>, writers: seq<Request>, acknowledged: seq<Request>, phase: Phase,
                         logfile: nat,
                         log: seq<LogRecord>, synced: set<nat>, applied: seq<Entry>, lastSequence: nat)

  datatype Label = Arrive(request: Request) | MakeRoom | Begin(size: nat) | AddRecord | Sync | Insert | Finish

  ghost predicate ArriveStep(s: State, r: Request, s': State) {
    s' == s.(arrived := s.arrived + [r], writers := s.writers + [r])
  }

  /** MakeRoomForWrite, by the writer at the front: at most a switch to a new log file. */
  ghost predicate MakeRoomStep(s: State, s': State) {
    s.writers != [] && s.phase.Waiting? && s' == s.(logfile := s.logfile + 1)
  }

  ghost predicate BeginStep(s: State, n: nat, bytes: ByteSize, s': State) {
    && s.writers != [] && s.phase.Waiting?
    && if s.writers[0].batch.None? then n == 1 && s' == s.(phase := Finishing(1))
       else
         && IsGroup(s.writers, bytes, n) && s.lastSequence + |AllOps(s.writers[..n])| <= MAX_SEQUENCE_NUMBER
         && s' == s.(phase := Logging(n))
  }

  ghost predicate AddRecordStep(s: State, s': State) {
    && s.phase.Logging? && 1 <= s.phase.n <= |s.writers|
    && var done, n := |s.acknowledged|, s.phase.n;
    && var record := LogRecord(s.logfile, s.lastSequence + 1, AllOps(s.writers[..n]), done, done + n);
    s' == s.(log := s.log + [record], phase := if s.writers[0].sync then Syncing(n) else Inserting(n))
  }

  /** Sync makes durable what is in the current log file. */
  ghost predicate SyncStep(s: State, s': State) {
    && s.phase.Syncing?
    && s' == s.(synced := s.synced + (set i | 0 <= i < |s.log| && s.log[i].file == s.logfile),
                phase := Inserting(s.phase.n))
  }

  ghost predicate InsertStep(s: State, s': State) {
    && s.phase.Inserting? && s.phase.n <= |s.writers|
    && var ops := AllOps(s.writers[..s.phase.n]);
    && s.lastSequence + |ops| <= MAX_SEQUENCE_NUMBER
    && s' == s.(applied := s.applied + BatchEntries(ops, s.lastSequence + 1), phase := Finishing(s.phase.n))
  }

  /** SetLastSequence, and the loop that pops the group off the queue. */
  ghost predicate FinishStep(s: State, s': State) {
    && s.phase.Finishing? && s.phase.n <= |s.writers|
    && var n := s.phase.n;
    s' == s.(lastSequence := s.lastSequence + |AllOps(s.writers[..n])|, acknowledged := s.acknowledged + s.writers[..n],
             writers := s.writers[n..], phase := Waiting)
  }

  ghost predicate Step(s: State, l: Label, bytes: ByteSize, s': State) {
    match l
    case Arrive(r) => ArriveStep(s, r, s')
    case MakeRoom => MakeRoomStep(s, s')
    case Begin(n) => BeginStep(s, n, bytes, s')
    case AddRecord => AddRecordStep(s, s')
    case Sync => SyncStep(s, s')
    case Insert => InsertStep(s, s')
    case Finish => FinishStep(s, s')
  }

  ghost predicate Init(s: State, base: SequenceNumber) {
    s == State([], [], [], Waiting, s.logfile, [], {}, [], base)
  }

  // ---------------------------------------------------------------- the invariant

  function LogOps(log: seq<LogRecord>): Batch {
    if log == [] then [] else LogOps(log[..|log| - 1]) + log[|log| - 1].ops
  }

  /** The group being committed. */
  function Group(s: State): seq<Request> {
    if s.phase.Waiting? || s.phase.n > |s.writers| then [] else s.writers[..s.phase.n]
  }

  /** The requests in the log, and those in the memtable. */
  function Logged(s: State): seq<Request> {
    if s.phase.Logging? then s.acknowledged else s.acknowledged + Group(s)
  }

  function Inserted(s: State): seq<Request> {
    if s.phase.Finishing? then s.acknowledged + Group(s) else s.acknowledged
  }

  /** The writer at the front speaks for a run of writers that want a sync only if it does. */
  ghost predicate PhaseInv(writers: seq<Request>, phase: Phase) {
    !phase.Waiting? ==>
      && 1 <= phase.n <= |writers|
      && (!phase.Finishing? ==> writers[0].batch.Some?) && (phase.Syncing? ==> writers[0].sync)
      && (writers[0].batch.None? ==> phase.n == 1)
      && forall i :: 0 <= i < phase.n ==> (writers[i].sync ==> writers[0].sync)
  }

  /** The log holds these requests in order, numbered from `base` without a gap. */
  ghost predicate LogInv(log: seq<LogRecord>, logged: seq<Request>, base: nat) {
    LogOps(log) == AllOps(logged) && forall i :: 0 <= i < |log| ==> log[i].first == base + 1 + |LogOps(log[..i])|
  }

  /** The memtables hold the operations of these requests, with the same numbers. */
  ghost predicate AppliedInv(applied: seq<Entry>, inserted: seq<Request>, base: nat) {
    base + |AllOps(inserted)| <= MAX_SEQUENCE_NUMBER && applied == BatchEntries(AllOps(inserted), base + 1)
  }

  ghost predicate Holds(r: LogRecord, w: nat) {
    r.from <= w < r.to
  }

  /** The record that commits the w-th writer has been synced. */
  ghost predicate SyncedRecord(log: seq<LogRecord>, synced: set<nat>, w: nat) {
    exists i :: i in synced && i < |log| && Holds(log[i], w)
  }

  ghost predicate SyncInv(acknowledged: seq<Request>, log: seq<LogRecord>, synced: set<nat>) {
    forall w :: 0 <= w < |acknowledged| && acknowledged[w].sync && acknowledged[w].batch.Some? ==>
      SyncedRecord(log, synced, w)
  }

  /** The last record is that of the group being committed, and is synced by the time it has to be. */
  ghost predicate LastRecordInv(writers: seq<Request>, done: nat, phase: Phase, log: seq<LogRecord>, synced: set<nat>,
                                logfile: nat)
    requires PhaseInv(writers, phase)
  {
    !phase.Waiting? && !phase.Logging? && writers[0].batch.Some? ==>
      && log != []
      && var last := log[|log| - 1];
      && last.file == logfile && last.from == done && last.to == done + phase.n
      && (!phase.Syncing? && writers[0].sync ==> |log| - 1 in synced)
  }

  ghost predicate Inv(s: State, base: nat) {
    && s.arrived == s.acknowledged + s.writers && PhaseInv(s.writers, s.phase)
    && LogInv(s.log, Logged(s), base) && AppliedInv(s.applied, Inserted(s), base)
    && s.lastSequence == base + |AllOps(s.acknowledged)|
    && SyncInv(s.acknowledged, s.log, s.synced)
    && LastRecordInv(s.writers, |s.acknowledged|, s.phase, s.log, s.synced, s.logfile)
  }

  lemma AllOpsSnoc(a: seq<Request>, r: Request)
    ensures AllOps(a + [r]) == AllOps(a) + OpsOf(r)
  {
    assert (a + [r])[..|a|] == a;
  }

  lemma LastApart(a: seq<Request>, b: seq<Request>)
    requires b != []
    ensures a + b == (a + b[..|b| - 1]) + [b[|b| - 1]] && b == b[..|b| - 1] + [b[|b| - 1]]
  {
  }

  lemma {:induction false} AllOpsSplit(a: seq<Request>, b: seq<Request>)
    ensures AllOps(a + b) == AllOps(a) + AllOps(b)
    decreases |b|
  {
    if b == [] {
      assert a + b == a;
    } else {
      hide AllOps, OpsOf;
      var before, last := b[..|b| - 1], b[|b| - 1];
      LastApart(a, b);
      AllOpsSplit(a, before);
      AllOpsSnoc(a + before, last);
      AllOpsSnoc(before, last);
    }
  }

  lemma BatchEntriesSplit(a: Batch, b: Batch, first: nat)
    requires first + |a| + |b| <= MAX_SEQUENCE_NUMBER + 1
    ensures BatchEntries(a + b, first) == BatchEntries(a, first) + BatchEntries(b, first + |a|)
  {
  }

  lemma ArriveKeepsInv(s: State, r: Request, base: nat, s': State)
    requires Inv(s, base) && ArriveStep(s, r, s')
    ensures Inv(s', base)
  {
    assert Group(s') == Group(s);
  }

  lemma BeginKeepsInv(s: State, n: nat, bytes: ByteSize, base: nat, s': State)
    requires Inv(s, base) && BeginStep(s, n, bytes, s')
    ensures Inv(s', base)
  {
    hide AllOps, LogOps, BatchEntries, SyncInv;
    assert s.acknowledged + [] == s.acknowledged;
    if s.writers[0].batch.None? {
      NothingToLog(s.acknowledged, s.writers);
      assert Group(s') == s.writers[..1];
    } else {
      forall i | 0 <= i < n
        ensures s.writers[i].sync ==> s.writers[0].sync { assert i > 0 ==> Joins(s.writers, bytes, i); }
    }
  }

  lemma NothingToLog(acknowledged: seq<Request>, writers: seq<Request>)
    requires writers != [] && writers[0].batch.None?
    ensures AllOps(acknowledged + writers[..1]) == AllOps(acknowledged)
  {
    AllOpsSplit(acknowledged, writers[..1]);
    assert writers[..1][..0] == [];
    assert AllOps(writers[..1]) == [];
  }

  lemma LogGrows(log: seq<LogRecord>, logged: seq<Request>, group: seq<Request>, base: nat, record: LogRecord)
    requires LogInv(log, logged, base) && record.ops == AllOps(group) && record.first == base + 1 + |AllOps(logged)|
    ensures LogInv(log + [record], logged + group, base)
  {
    AllOpsSplit(logged, group);
    var all := log + [record];
    assert all[..|log|] == log;
    forall i | 0 <= i < |log| ensures all[..i] == log[..i] { }
  }

  lemma SyncedStays(log: seq<LogRecord>, more: seq<LogRecord>, synced: set<nat>, synced': set<nat>,
                    acknowledged: seq<Request>)
    requires SyncInv(acknowledged, log, synced) && synced <= synced'
    ensures SyncInv(acknowledged, log + more, synced')
  {
    forall w | 0 <= w < |acknowledged| && acknowledged[w].sync && acknowledged[w].batch.Some?
      ensures SyncedRecord(log + more, synced', w)
    {
      assert SyncedRecord(log, synced, w);
      var i :| i in synced && i < |log| && Holds(log[i], w);
      assert (log + more)[i] == log[i];
    }
  }

  lemma AddRecordKeepsInv(s: State, base: nat, s': State)
    requires Inv(s, base) && AddRecordStep(s, s')
    ensures Inv(s', base)
  {
    var record := s'.log[|s.log|];
    LogGrows(s.log, s.acknowledged, s.writers[..s.phase.n], base, record);
    SyncedStays(s.log, [record], s.synced, s.synced, s.acknowledged);
  }

  lemma SyncKeepsInv(s: State, base: nat, s': State)
    requires Inv(s, base) && SyncStep(s, s')
    ensures Inv(s', base)
  {
    SyncedStays(s.log, [], s.synced, s'.synced, s.acknowledged);
    assert s.log + [] == s.log;
  }

  lemma AppliedGrows(applied: seq<Entry>, done: seq<Request>, group: seq<Request>, base: nat)
    requires AppliedInv(applied, done, base) && base + |AllOps(done)| + |AllOps(group)| <= MAX_SEQUENCE_NUMBER
    ensures AppliedInv(applied + BatchEntries(AllOps(group), base + |AllOps(done)| + 1), done + group, base)
  {
    AllOpsSplit(done, group);
    BatchEntriesSplit(AllOps(done), AllOps(group), base + 1);
  }

  lemma InsertKeepsInv(s: State, base: nat, s': State)
    requires Inv(s, base) && InsertStep(s, s')
    ensures Inv(s', base)
  {
    AppliedGrows(s.applied, s.acknowledged, s.writers[..s.phase.n], base);
    assert Group(s') == Group(s) && Logged(s') == Logged(s);
  }

  lemma GroupIsSynced(s: State, base: nat, w: nat)
    requires Inv(s, base) && s.phase.Finishing? && w < s.phase.n && s.writers[w].sync && s.writers[w].batch.Some?
    ensures SyncedRecord(s.log, s.synced, |s.acknowledged| + w)
  {
    assert Holds(s.log[|s.log| - 1], |s.acknowledged| + w);
  }

  lemma AcknowledgedSynced(s: State, base: nat)
    requires Inv(s, base) && s.phase.Finishing?
    ensures SyncInv(s.acknowledged + Group(s), s.log, s.synced)
  {
    var acknowledged := s.acknowledged + Group(s);
    forall w | 0 <= w < |acknowledged| && acknowledged[w].sync && acknowledged[w].batch.Some?
      ensures SyncedRecord(s.log, s.synced, w)
    {
      if w >= |s.acknowledged| { GroupIsSynced(s, base, w - |s.acknowledged|); }
    }
  }

  /** What finishing a group changes. */
  lemma FinishShape(s: State, s': State)
    requires FinishStep(s, s') && s.arrived == s.acknowledged + s.writers
    ensures s'.arrived == s'.acknowledged + s'.writers && s'.acknowledged == s.acknowledged + Group(s)
    ensures s'.phase.Waiting? && s'.log == s.log && s'.synced == s.synced && s'.applied == s.applied
    ensures Logged(s') == Logged(s) && Inserted(s') == Inserted(s)
    ensures s'.lastSequence == s.lastSequence + |AllOps(Group(s))|
  {
    assert s.acknowledged + s.writers == (s.acknowledged + Group(s)) + s.writers[s.phase.n..];
  }

  lemma FinishKeepsInv(s: State, base: nat, s': State)
    requires Inv(s, base) && FinishStep(s, s')
    ensures Inv(s', base)
  {
    assert s.phase.Finishing?;
    AcknowledgedSynced(s, base);
    AllOpsSplit(s.acknowledged, Group(s));
    FinishShape(s, s');
    hide LogInv, AppliedInv, SyncInv, AllOps, FinishStep, Group, Logged, Inserted;
  }

  lemma StepKeepsInv(s: State, l: Label, bytes: ByteSize, base: nat, s': State)
    requires Inv(s, base) && Step(s, l, bytes, s')
    ensures Inv(s', base)
  {
    match l
    case Arrive(r) => ArriveKeepsInv(s, r, base, s');
    case MakeRoom =>
    case Begin(n) => BeginKeepsInv(s, n, bytes, base, s');
    case AddRecord => AddRecordKeepsInv(s, base, s');
    case Sync => SyncKeepsInv(s, base, s');
    case Insert => InsertKeepsInv(s, base, s');
    case Finish => FinishKeepsInv(s, base, s');
  }

  ghost predicate Run(states: seq<State>, labels: seq<Label>, bytes: ByteSize, base: SequenceNumber) {
    && |states| == |labels| + 1 && Init(states[0], base)
    && forall i :: 0 <= i < |labels| ==> Step(states[i], labels[i], bytes, states[i + 1])
  }

  lemma InitInv(s: State, base: SequenceNumber)
    requires Init(s, base)
    ensures Inv(s, base)
  {
  }

  lemma {:induction false} RunKeepsInv(states: seq<State>, labels: seq<Label>, bytes: ByteSize, base: SequenceNumber,
                                       i: nat)
    requires Run(states, labels, bytes, base) && i < |states|
    ensures Inv(states[i], base)
  {
    hide Inv, Init, Step;
    if i == 0 {
      InitInv(states[0], base);
    } else {
      RunKeepsInv(states, labels, bytes, base, i - 1);
      StepKeepsInv(states[i - 1], labels[i - 1], bytes, base, states[i]);
    }
  }

  /** In every interleaving: calls return in the order they arrived, each once; the log is their batches in that order,
      numbered without gap or repeat; and no writer that asked for it returns before a sync of its record. */
  lemma WritesAreOrdered(states: seq<State>, labels: seq<Label>, bytes: ByteSize, base: SequenceNumber, i: nat)
    requires Run(states, labels, bytes, base) && i < |states|
    ensures var s := states[i];
            && s.arrived == s.acknowledged + s.writers
            && Logged(s) <= s.arrived && s.acknowledged <= Logged(s) && LogOps(s.log) == AllOps(Logged(s))
            && (forall k :: 0 <= k < |s.log| ==> s.log[k].first == base + 1 + |LogOps(s.log[..k])|)
            && forall w :: 0 <= w < |s.acknowledged| && s.acknowledged[w].sync && s.acknowledged[w].batch.Some? ==>
                             SyncedRecord(s.log, s.synced, w)
  {
    RunKeepsInv(states, labels, bytes, base, i);
    var s := states[i];
    assert s.acknowledged + Group(s) <= s.arrived;
  }

  /** A reader at the published sequence number sees the acknowledged batches whole, and nothing of a group in
      progress. */
  lemma GroupsAreAtomic(states: seq<State>, labels: seq<Label>, bytes: ByteSize, base: SequenceNumber, i: nat)
    requires Run(states, labels, bytes, base) && i < |states|
    ensures var s := states[i];
            && base + |AllOps(s.acknowledged)| == s.lastSequence <= MAX_SEQUENCE_NUMBER
            && forall e :: e in s.applied && e.key.sn <= s.lastSequence <==>
                           e in BatchEntries(AllOps(s.acknowledged), base + 1)
  {
    RunKeepsInv(states, labels, bytes, base, i);
    var s := states[i];
    AllOpsSplit(s.acknowledged, Group(s));
    VisiblePart(AllOps(s.acknowledged), if s.phase.Finishing? then AllOps(Group(s)) else [], base + 1);
  }

  /** Entries up to the last number of the first batch are exactly those of the first batch. */
  lemma VisiblePart(a: Batch, b: Batch, first: nat)
    requires first + |a| + |b| <= MAX_SEQUENCE_NUMBER + 1
    ensures a + [] == a
    ensures forall e :: e in BatchEntries(a + b, first) && e.key.sn < first + |a| <==> e in BatchEntries(a, first)
  {
    BatchEntriesSplit(a, b, first);
  }
}
