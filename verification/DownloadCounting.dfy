/**
 Counted downloads next to the two handlers that write back a whole metadata record. Every lock operation
 and every database statement is one step; the steps of any number of requests interleave freely.
 */
module DownloadCounting {
  import opened Wrappers
  import opened Encryption
  import opened Models
  import opened Database
  import opened ApiMutex

  type Tid = nat

  /** How the ids of files spell as lock keys; different keys may well share a stripe. */
  type KeyOf = FileId -> Bytes

  datatype EditRequest = EditRequest(
    unlimitedDownloads: bool,
    allowedDownloads: int,
    unlimitedExpiry: bool,
    expiryTimestamp: int,
    keepPassword: bool,
    passwordHash: string)

  datatype Pc =
    | Fetching        // a download is about to read the record without a lock
    | Locking
    | Rereading       // a download is about to read the remaining count again
    | Checking        // a download is about to check the expiry again
    | Counting        // a download is about to count itself
    | Reading         // an editor is about to read the record
    | Saving          // an editor is about to write its whole record back
    | Unlocking(ok: bool)
    | Finished(ok: bool)

  datatype Kind =
    | Download(increaseCounter: bool, recheckExpiry: bool)
    | Edit(request: EditRequest, editor: UserId, mayEditOthers: bool)
    | ChangeOwner(newOwner: UserId, mayEditOthers: bool, ownerExists: bool)

  /** A request in progress, with its own copy of the record. */
  datatype Thread = Thread(id: FileId, kind: Kind, file: Option<File>, pc: Pc)

  datatype Machine = Machine(rows: Rows, stripes: map<nat, Tid>, threads: map<Tid, Thread>)

  datatype Step =
    | Start(tid: Tid, id: FileId, kind: Kind)
    | Advance(tid: Tid, now: int, sourceExists: bool)

  function Stripe(keyOf: KeyOf, id: FileId): nat {
    GetStripe(TYPE_META_DATA, keyOf(id))
  }

  /** The changes an edit request asks for; hotlinks are left out. */
  function Edited(file: File, request: EditRequest): File {
    var f1 :=
      if request.unlimitedDownloads then file.(unlimitedDownloads := true)
      else if request.allowedDownloads != 0 then
        file.(downloadsRemaining := request.allowedDownloads, unlimitedDownloads := false)
      else file;
    var f2 :=
      if request.unlimitedExpiry then f1.(unlimitedTime := true)
      else if request.expiryTimestamp != 0 then f1.(expireAt := request.expiryTimestamp, unlimitedTime := false)
      else f1;
    if request.keepPassword then f2 else f2.(passwordHash := request.passwordHash)
  }

  /** What GetFile returns, given whether the source is there. */
  function Available(rows: Rows, id: FileId, now: int, sourceExists: bool): bool {
    id != NO_ID && id in rows && !rows[id].IsPendingForDeletion() && !IsExpiredFile(rows[id], now) && sourceExists
  }

  function NewThread(id: FileId, kind: Kind): Thread {
    Thread(id, kind, None, if kind.Download? then Fetching else Locking)
  }

  function AfterLock(kind: Kind): Pc {
    match kind
    case Download(increaseCounter, recheckExpiry) =>
      if recheckExpiry then Rereading else if increaseCounter then Counting else Unlocking(true)
    case _ => Reading
  }

  /** Where one statement takes a request that is not waiting for its lock. */
  function NextThread(rows: Rows, t: Thread, now: int, sourceExists: bool): Thread {
    match t.pc
    case Fetching =>
      if Available(rows, t.id, now, sourceExists) then t.(pc := Locking, file := Some(rows[t.id]))
      else t.(pc := Finished(false))
    case Locking => t.(pc := AfterLock(t.kind))
    case Rereading =>
      if t.file.None? || t.file.value.unlimitedDownloads then t.(pc := Checking)
      else t.(pc := Checking, file := Some(t.file.value.(downloadsRemaining := DownloadsRemaining(rows, t.id))))
    case Checking =>
      if t.file.None? || IsExpiredFile(t.file.value, now) then t.(pc := Unlocking(false))
      else if t.kind.Download? && t.kind.increaseCounter then t.(pc := Counting)
      else t.(pc := Unlocking(true))
    case Counting => t.(pc := Unlocking(true))
    case Reading =>
      if t.kind.Edit? && t.id in rows && (rows[t.id].userId == t.kind.editor || t.kind.mayEditOthers) then
        t.(pc := Saving, file := Some(Edited(rows[t.id], t.kind.request)))
      else if t.kind.ChangeOwner? && Available(rows, t.id, now, sourceExists) && t.kind.mayEditOthers && t.kind.ownerExists then
        t.(pc := Saving, file := Some(rows[t.id].(userId := t.kind.newOwner)))
      else t.(pc := Unlocking(false))
    case Saving => t.(pc := Unlocking(true))
    case Unlocking(ok) => t.(pc := Finished(ok))
    case Finished(ok) => t
  }

  /** The database statement of a program point, if it writes. */
  function NextRows(rows: Rows, t: Thread): Rows {
    if t.file.None? then rows
    else if t.pc == Counting then Counted(rows, t.id, !t.file.value.unlimitedDownloads)
    else if t.pc == Saving then rows[t.file.value.id := t.file.value]
    else rows
  }

  function NextStripes(stripes: map<nat, Tid>, tid: Tid, pc: Pc, stripe: nat): map<nat, Tid> {
    match pc
    case Locking => stripes[stripe := tid]
    case Unlocking(_) => stripes - {stripe}
    case _ => stripes
  }

  predicate IsWaiting(keyOf: KeyOf, m: Machine, t: Thread) {
    t.pc == Locking && Stripe(keyOf, t.id) in m.stripes
  }

  function AdvanceThread(keyOf: KeyOf, m: Machine, tid: Tid, now: int, sourceExists: bool): Machine
    requires tid in m.threads
  {
    var t := m.threads[tid];
    if IsWaiting(keyOf, m, t) then m
    else Machine(NextRows(m.rows, t), NextStripes(m.stripes, tid, t.pc, Stripe(keyOf, t.id)),
                 m.threads[tid := NextThread(m.rows, t, now, sourceExists)])
  }

  /** A step that is not enabled changes nothing. */
  function Apply(keyOf: KeyOf, m: Machine, step: Step): Machine {
    match step
    case Start(tid, id, kind) =>
      if tid in m.threads then m
      else m.(threads := m.threads[tid := NewThread(id, kind)])
    case Advance(tid, now, sourceExists) =>
      if tid in m.threads then AdvanceThread(keyOf, m, tid, now, sourceExists) else m
  }

  function Run(keyOf: KeyOf, m: Machine, steps: seq<Step>): Machine
    decreases |steps|
  {
    if steps == [] then m else Run(keyOf, Apply(keyOf, m, steps[0]), steps[1..])
  }

  function Init(rows: Rows): Machine {
    Machine(rows, map[], map[])
  }

  ghost predicate ValidRows(rows: Rows) {
    forall id :: id in rows ==> rows[id].id == id
  }

  /** The download was let through and counted. */
  predicate IsCountedServe(t: Thread) {
    t.kind.Download? && t.kind.increaseCounter && (t.pc == Unlocking(true) || t.pc == Finished(true))
  }

  /** The counted downloads of a file that were served so far. */
  function Served(m: Machine, id: FileId): set<Tid> {
    set tid | tid in m.threads && m.threads[tid].id == id && IsCountedServe(m.threads[tid])
  }

  // ---------------------------------------------------------------- locks

  predicate InSection(t: Thread) {
    t.pc in {Rereading, Checking, Counting, Reading, Saving} || t.pc.Unlocking?
  }

  ghost predicate LockInv(keyOf: KeyOf, m: Machine) {
    && (forall tid :: tid in m.threads && InSection(m.threads[tid]) ==>
                        var stripe := Stripe(keyOf, m.threads[tid].id);
                        stripe in m.stripes && m.stripes[stripe] == tid)
    && (forall stripe :: stripe in m.stripes ==>
                           var tid := m.stripes[stripe];
                           tid in m.threads && InSection(m.threads[tid]) && Stripe(keyOf, m.threads[tid].id) == stripe)
  }

  /** A request only takes the program points of its kind, and has its copy of the record where it needs one. */
  predicate WellShaped(rows: Rows, t: Thread) {
    && (t.pc in {Fetching, Rereading, Checking, Counting} ==> t.kind.Download?)
    && (t.pc in {Reading, Saving} ==> !t.kind.Download?)
    && (t.pc == Counting ==> t.kind.increaseCounter)
    && (t.kind.Download? && (t.pc == Locking || InSection(t)) ==> t.file.Some?)
    && (t.pc == Saving ==> t.file.Some?)
    && (t.file.Some? ==> t.file.value.id == t.id && t.id in rows)
  }

  ghost predicate ShapeInv(m: Machine) {
    ValidRows(m.rows) && forall tid :: tid in m.threads ==> WellShaped(m.rows, m.threads[tid])
  }

  /** An editor about to write back: its copy still shows the stored download count. */
  predicate CopyIsCurrent(rows: Rows, t: Thread) {
    t.pc == Saving && t.file.Some? && t.id in rows ==> t.file.value.downloadCount == rows[t.id].downloadCount
  }

  /** Everything about one statement of one request that the claims below rest on. */
  ghost predicate StepFacts(rows: Rows, t: Thread, rows': Rows, t': Thread) {
    && WellShaped(rows, t') && t'.id == t.id && t'.kind == t.kind
    && (InSection(t') <==> t.pc == Locking || (InSection(t) && !t.pc.Unlocking?))
    && (IsCountedServe(t') <==> IsCountedServe(t) || t.pc == Counting)
    && rows'.Keys == rows.Keys
    && ValidRows(rows')
    && (!InSection(t) ==> rows' == rows)
    && (forall id :: id in rows && id != t.id ==> rows'[id] == rows[id])
    && (CopyIsCurrent(rows, t) && t.id in rows ==>
          rows'[t.id].downloadCount == rows[t.id].downloadCount + if t.pc == Counting then 1 else 0)
    && CopyIsCurrent(rows', t')
  }

  lemma NextThreadFacts(rows: Rows, t: Thread, now: int, sourceExists: bool)
    requires ValidRows(rows) && WellShaped(rows, t)
    ensures StepFacts(rows, t, NextRows(rows, t), NextThread(rows, t, now, sourceExists))
  {
  }

  lemma StepKeepsShape(keyOf: KeyOf, m: Machine, step: Step)
    requires ShapeInv(m)
    ensures var m' := Apply(keyOf, m, step); ShapeInv(m') && m'.rows.Keys == m.rows.Keys
  {
    if step.Advance? && step.tid in m.threads {
      NextThreadFacts(m.rows, m.threads[step.tid], step.now, step.sourceExists);
    }
  }

  /** `m'` is `m` after a statement of the request `tid`. */
  ghost predicate IsStep(keyOf: KeyOf, m: Machine, tid: Tid, m': Machine) {
    && tid in m.threads && tid in m'.threads && !IsWaiting(keyOf, m, m.threads[tid])
    && m'.threads == m.threads[tid := m'.threads[tid]]
    && m'.stripes == NextStripes(m.stripes, tid, m.threads[tid].pc, Stripe(keyOf, m.threads[tid].id))
    && StepFacts(m.rows, m.threads[tid], m'.rows, m'.threads[tid])
  }

  lemma ApplyIsStep(keyOf: KeyOf, m: Machine, step: Step)
    requires ShapeInv(m)
    ensures var m' := Apply(keyOf, m, step);
            if step.Start? then
              m' == m || (step.tid !in m.threads && m'.rows == m.rows && m'.stripes == m.stripes
                          && m'.threads == m.threads[step.tid := NewThread(step.id, step.kind)])
            else m' == m || IsStep(keyOf, m, step.tid, m')
  {
    if step.Advance? && step.tid in m.threads {
      NextThreadFacts(m.rows, m.threads[step.tid], step.now, step.sourceExists);
    }
  }

  lemma LockingKeepsLocks(keyOf: KeyOf, m: Machine, tid: Tid, m': Machine)
    requires LockInv(keyOf, m) && IsStep(keyOf, m, tid, m') && m.threads[tid].pc == Locking
    ensures LockInv(keyOf, m')
  {
  }

  lemma UnlockingKeepsLocks(keyOf: KeyOf, m: Machine, tid: Tid, m': Machine)
    requires LockInv(keyOf, m) && IsStep(keyOf, m, tid, m') && m.threads[tid].pc.Unlocking?
    ensures LockInv(keyOf, m')
  {
  }

  lemma StayingKeepsLocks(keyOf: KeyOf, m: Machine, tid: Tid, m': Machine)
    requires LockInv(keyOf, m) && IsStep(keyOf, m, tid, m')
    requires m.threads[tid].pc != Locking && !m.threads[tid].pc.Unlocking?
    ensures LockInv(keyOf, m')
  {
  }

  lemma StepKeepsLocks(keyOf: KeyOf, m: Machine, step: Step)
    requires LockInv(keyOf, m) && ShapeInv(m)
    ensures LockInv(keyOf, Apply(keyOf, m, step))
  {
    var m' := Apply(keyOf, m, step);
    ApplyIsStep(keyOf, m, step);
    if step.Advance? && m' != m {
      if m.threads[step.tid].pc == Locking {
        LockingKeepsLocks(keyOf, m, step.tid, m');
      } else if m.threads[step.tid].pc.Unlocking? {
        UnlockingKeepsLocks(keyOf, m, step.tid, m');
      } else {
        StayingKeepsLocks(keyOf, m, step.tid, m');
      }
    }
  }

  /** Two requests inside the section at once work on different files. */
  lemma SectionIsExclusive(keyOf: KeyOf, m: Machine, t: Tid, u: Tid)
    requires LockInv(keyOf, m) && t in m.threads && u in m.threads && t != u
    requires InSection(m.threads[t]) && InSection(m.threads[u])
    ensures m.threads[t].id != m.threads[u].id
  {
  }

  // ---------------------------------------------------------------- no lost update

  ghost predicate CopyInv(m: Machine) {
    forall tid :: tid in m.threads ==> CopyIsCurrent(m.rows, m.threads[tid])
  }

  /** The stored count is the initial count plus the counted serves. */
  ghost predicate CountInv(m: Machine, initial: Rows) {
    && m.rows.Keys == initial.Keys
    && forall id :: id in initial ==> m.rows[id].downloadCount == initial[id].downloadCount + |Served(m, id)|
  }

  lemma AdvanceKeepsCopies(keyOf: KeyOf, m: Machine, tid: Tid, m': Machine)
    requires LockInv(keyOf, m) && CopyInv(m) && IsStep(keyOf, m, tid, m')
    ensures CopyInv(m')
  {
    forall u | u in m.threads && u != tid
      ensures CopyIsCurrent(m'.rows, m.threads[u])
    {
      assert CopyIsCurrent(m.rows, m.threads[u]);
      if InSection(m.threads[tid]) && InSection(m.threads[u]) { SectionIsExclusive(keyOf, m, tid, u); }
    }
  }

  /** A thread joins the served ones with the statement that counts it, and stays there. */
  lemma ServedAfterStep(m: Machine, tid: Tid, m': Machine, id: FileId)
    requires tid in m.threads && tid in m'.threads && m'.threads == m.threads[tid := m'.threads[tid]]
    requires m'.threads[tid].id == m.threads[tid].id
    requires IsCountedServe(m'.threads[tid]) <==> IsCountedServe(m.threads[tid]) || m.threads[tid].pc == Counting
    ensures |Served(m', id)| == |Served(m, id)| + if m.threads[tid].id == id && m.threads[tid].pc == Counting then 1 else 0
  {
    var joins := m.threads[tid].id == id && m.threads[tid].pc == Counting;
    assert tid in Served(m, id) <==> m.threads[tid].id == id && IsCountedServe(m.threads[tid]);
    assert Served(m', id) == if joins then Served(m, id) + {tid} else Served(m, id);
  }

  /** A request that only starts has not served anything. */
  lemma ServedAfterStart(m: Machine, tid: Tid, t: Thread, id: FileId)
    requires tid !in m.threads && !IsCountedServe(t)
    ensures Served(m.(threads := m.threads[tid := t]), id) == Served(m, id)
  {
  }

  lemma AdvanceKeepsCounts(keyOf: KeyOf, m: Machine, tid: Tid, m': Machine, initial: Rows)
    requires CopyInv(m) && CountInv(m, initial) && IsStep(keyOf, m, tid, m')
    ensures CountInv(m', initial)
  {
    assert CopyIsCurrent(m.rows, m.threads[tid]);
    forall id | id in initial
      ensures m'.rows[id].downloadCount == initial[id].downloadCount + |Served(m', id)|
    {
      ServedAfterStep(m, tid, m', id);
    }
  }

  ghost predicate Inv(keyOf: KeyOf, m: Machine, initial: Rows) {
    LockInv(keyOf, m) && ShapeInv(m) && CopyInv(m) && CountInv(m, initial)
  }

  lemma StepKeepsCopiesAndCounts(keyOf: KeyOf, m: Machine, step: Step, initial: Rows)
    requires Inv(keyOf, m, initial)
    ensures var m' := Apply(keyOf, m, step); CopyInv(m') && CountInv(m', initial)
  {
    var m' := Apply(keyOf, m, step);
    ApplyIsStep(keyOf, m, step);
    if m' != m {
      if step.Advance? {
        AdvanceKeepsCopies(keyOf, m, step.tid, m');
        AdvanceKeepsCounts(keyOf, m, step.tid, m', initial);
      } else {
        forall id | id in initial ensures Served(m', id) == Served(m, id) {
          ServedAfterStart(m, step.tid, NewThread(step.id, step.kind), id);
        }
      }
    }
  }

  lemma StepKeepsInv(keyOf: KeyOf, m: Machine, step: Step, initial: Rows)
    requires Inv(keyOf, m, initial)
    ensures Inv(keyOf, Apply(keyOf, m, step), initial)
  {
    StepKeepsLocks(keyOf, m, step);
    StepKeepsShape(keyOf, m, step);
    StepKeepsCopiesAndCounts(keyOf, m, step, initial);
  }

  lemma InitInv(keyOf: KeyOf, rows: Rows)
    requires ValidRows(rows)
    ensures Inv(keyOf, Init(rows), rows)
  {
    forall id | id in rows ensures Served(Init(rows), id) == {} {}
  }

  lemma {:induction false} RunKeepsInv(keyOf: KeyOf, m: Machine, steps: seq<Step>, initial: Rows)
    requires Inv(keyOf, m, initial)
    ensures Inv(keyOf, Run(keyOf, m, steps), initial)
    decreases |steps|
  {
    if steps == [] {
    } else {
      StepKeepsInv(keyOf, m, steps[0], initial);
      RunKeepsInv(keyOf, Apply(keyOf, m, steps[0]), steps[1..], initial);
    }
  }

  /**
   Main theorem: in every interleaving of downloads, edits and changes of owner, on any files and with any
   sharing of stripes, the stored count of each file grows by exactly the number of counted serves.
   */
  lemma NoLostUpdate(keyOf: KeyOf, initial: Rows, steps: seq<Step>, id: FileId)
    requires ValidRows(initial) && id in initial
    ensures var m := Run(keyOf, Init(initial), steps);
            id in m.rows && m.rows[id].downloadCount == initial[id].downloadCount + |Served(m, id)|
  {
    InitInv(keyOf, initial);
    RunKeepsInv(keyOf, Init(initial), steps, initial);
  }

  // ---------------------------------------------------------------- the download limit

  /** The download is a public one: it counts itself and checks the limit again under the lock. */
  predicate IsPublic(kind: Kind) {
    kind.Download? && kind.increaseCounter && kind.recheckExpiry
  }

  /** All requests for the file are public downloads; other files may see anything. */
  predicate OnlyPublic(steps: seq<Step>, id: FileId) {
    forall k :: 0 <= k < |steps| && steps[k].Start? && steps[k].id == id ==> IsPublic(steps[k].kind)
  }

  /** A download of the limited file, by program point. */
  predicate LimitShape(t: Thread, remaining: int) {
    && IsPublic(t.kind)
    && (t.file.Some? ==> !t.file.value.unlimitedDownloads)
    && (t.pc == Checking ==> t.file.Some? && t.file.value.downloadsRemaining == remaining)
    && (t.pc == Counting ==> remaining >= 1)
  }

  ghost predicate LimitInv(m: Machine, id: FileId, limit: int) {
    && id in m.rows && !m.rows[id].unlimitedDownloads
    && m.rows[id].downloadsRemaining == limit - |Served(m, id)|
    && m.rows[id].downloadsRemaining >= 0
    && forall tid :: tid in m.threads && m.threads[tid].id == id ==> LimitShape(m.threads[tid], m.rows[id].downloadsRemaining)
  }

  lemma NextThreadLimitShape(rows: Rows, t: Thread, now: int, sourceExists: bool)
    requires ValidRows(rows) && WellShaped(rows, t) && t.id in rows && !rows[t.id].unlimitedDownloads
    requires LimitShape(t, rows[t.id].downloadsRemaining)
    ensures var t', rows' := NextThread(rows, t, now, sourceExists), NextRows(rows, t);
            && LimitShape(t', rows'[t.id].downloadsRemaining)
            && rows'[t.id] == rows[t.id].(downloadCount := rows'[t.id].downloadCount,
                                          downloadsRemaining := rows[t.id].downloadsRemaining - if t.pc == Counting then 1 else 0)
  {
  }

  /** A statement of another request leaves the limited file to those who wait or work on it. */
  lemma AdvanceKeepsLimit(keyOf: KeyOf, m: Machine, tid: Tid, m': Machine, id: FileId, limit: int)
    requires LockInv(keyOf, m) && LimitInv(m, id, limit) && IsStep(keyOf, m, tid, m')
    requires m.threads[tid].id == id ==>
               && m'.rows[id] == m.rows[id].(downloadCount := m'.rows[id].downloadCount,
                                             downloadsRemaining := m.rows[id].downloadsRemaining - if m.threads[tid].pc == Counting then 1 else 0)
               && LimitShape(m'.threads[tid], m'.rows[id].downloadsRemaining)
    ensures LimitInv(m', id, limit)
  {
    ServedAfterStep(m, tid, m', id);
    if m.threads[tid].id == id {
      assert LimitShape(m.threads[tid], m.rows[id].downloadsRemaining);
    }
    forall u | u in m.threads && u != tid && m.threads[u].id == id
      ensures LimitShape(m.threads[u], m'.rows[id].downloadsRemaining)
    {
      assert LimitShape(m.threads[u], m.rows[id].downloadsRemaining);
      if m.threads[tid].id == id && InSection(m.threads[tid]) && InSection(m.threads[u]) {
        SectionIsExclusive(keyOf, m, tid, u);
      }
    }
  }

  lemma StepKeepsLimit(keyOf: KeyOf, m: Machine, step: Step, id: FileId, limit: int)
    requires LockInv(keyOf, m) && ShapeInv(m) && LimitInv(m, id, limit)
    requires step.Start? && step.id == id ==> IsPublic(step.kind)
    ensures LimitInv(Apply(keyOf, m, step), id, limit)
  {
    var m' := Apply(keyOf, m, step);
    ApplyIsStep(keyOf, m, step);
    if m' != m {
      if step.Start? {
        ServedAfterStart(m, step.tid, NewThread(step.id, step.kind), id);
      } else {
        if m.threads[step.tid].id == id {
          NextThreadLimitShape(m.rows, m.threads[step.tid], step.now, step.sourceExists);
        }
        AdvanceKeepsLimit(keyOf, m, step.tid, m', id, limit);
      }
    }
  }

  lemma {:induction false} RunKeepsLimit(keyOf: KeyOf, m: Machine, steps: seq<Step>, id: FileId, limit: int)
    requires LockInv(keyOf, m) && ShapeInv(m) && LimitInv(m, id, limit) && OnlyPublic(steps, id)
    ensures LimitInv(Run(keyOf, m, steps), id, limit)
    decreases |steps|
  {
    if steps == [] {
    } else {
      StepKeepsLocks(keyOf, m, steps[0]);
      StepKeepsShape(keyOf, m, steps[0]);
      StepKeepsLimit(keyOf, m, steps[0], id, limit);
      RunKeepsLimit(keyOf, Apply(keyOf, m, steps[0]), steps[1..], id, limit);
    }
  }

  /**
   Main theorem: of a limited file with R downloads left at most R public downloads are served in any
   interleaving, however stale the record they started from; the stored remaining count never drops below
   zero, and remaining count plus download count stays what it was.
   */
  lemma AtMostTheLimitIsServed(keyOf: KeyOf, initial: Rows, steps: seq<Step>, id: FileId)
    requires ValidRows(initial) && id in initial && !initial[id].unlimitedDownloads && initial[id].downloadsRemaining >= 0
    requires OnlyPublic(steps, id)
    ensures var m := Run(keyOf, Init(initial), steps);
            && id in m.rows
            && |Served(m, id)| <= initial[id].downloadsRemaining
            && m.rows[id].downloadsRemaining >= 0
            && m.rows[id].downloadsRemaining + m.rows[id].downloadCount
               == initial[id].downloadsRemaining + initial[id].downloadCount
  {
    InitInv(keyOf, initial);
    assert Served(Init(initial), id) == {};
    RunKeepsLimit(keyOf, Init(initial), steps, id, initial[id].downloadsRemaining);
    NoLostUpdate(keyOf, initial, steps, id);
  }

  // ---------------------------------------------------------------- edits next to limited downloads

  /** Downloads that count themselves check again, and edits do not set a limit below the floor. */
  predicate IsProper(kind: Kind, floor: int) {
    match kind
    case Download(increaseCounter, recheckExpiry) => increaseCounter ==> recheckExpiry
    case Edit(request, _, _) => request.allowedDownloads >= floor
    case ChangeOwner(_, _, _) => true
  }

  /** All requests for the file are proper; other files may see anything. */
  predicate OnlyProper(steps: seq<Step>, id: FileId, floor: int) {
    forall k :: 0 <= k < |steps| && steps[k].Start? && steps[k].id == id ==> IsProper(steps[k].kind, floor)
  }

  /** A request for the file, by program point: a limited download is only counted while one is left. */
  predicate FloorShape(t: Thread, remaining: int, floor: int) {
    && IsProper(t.kind, floor)
    && (t.pc == Saving && t.file.Some? ==> t.file.value.downloadsRemaining >= floor)
    && (t.file.Some? && !t.file.value.unlimitedDownloads ==>
          && (t.pc == Checking ==> t.file.value.downloadsRemaining == remaining)
          && (t.pc == Counting ==> remaining >= 1))
  }

  ghost predicate FloorInv(m: Machine, id: FileId, floor: int) {
    && id in m.rows && m.rows[id].downloadsRemaining >= floor
    && forall tid :: tid in m.threads && m.threads[tid].id == id ==>
                       FloorShape(m.threads[tid], m.rows[id].downloadsRemaining, floor)
  }

  lemma NextThreadKeepsFloor(rows: Rows, t: Thread, now: int, sourceExists: bool, floor: int)
    requires ValidRows(rows) && WellShaped(rows, t) && t.id in rows && floor <= 0
    requires rows[t.id].downloadsRemaining >= floor && FloorShape(t, rows[t.id].downloadsRemaining, floor)
    ensures var remaining := NextRows(rows, t)[t.id].downloadsRemaining;
            remaining >= floor && FloorShape(NextThread(rows, t, now, sourceExists), remaining, floor)
  {
  }

  lemma AdvanceKeepsFloor(keyOf: KeyOf, m: Machine, tid: Tid, m': Machine, id: FileId, floor: int)
    requires LockInv(keyOf, m) && FloorInv(m, id, floor) && IsStep(keyOf, m, tid, m')
    requires m.threads[tid].id == id ==>
               && m'.rows[id].downloadsRemaining >= floor
               && FloorShape(m'.threads[tid], m'.rows[id].downloadsRemaining, floor)
    ensures FloorInv(m', id, floor)
  {
    forall u | u in m.threads && u != tid && m.threads[u].id == id
      ensures FloorShape(m.threads[u], m'.rows[id].downloadsRemaining, floor)
    {
      assert FloorShape(m.threads[u], m.rows[id].downloadsRemaining, floor);
      if m.threads[tid].id == id && InSection(m.threads[tid]) && InSection(m.threads[u]) {
        SectionIsExclusive(keyOf, m, tid, u);
      }
    }
  }

  lemma StepKeepsFloor(keyOf: KeyOf, m: Machine, step: Step, id: FileId, floor: int)
    requires LockInv(keyOf, m) && ShapeInv(m) && FloorInv(m, id, floor) && floor <= 0
    requires step.Start? && step.id == id ==> IsProper(step.kind, floor)
    ensures FloorInv(Apply(keyOf, m, step), id, floor)
  {
    var m' := Apply(keyOf, m, step);
    ApplyIsStep(keyOf, m, step);
    if step.Advance? && m' != m {
      if m.threads[step.tid].id == id {
        NextThreadKeepsFloor(m.rows, m.threads[step.tid], step.now, step.sourceExists, floor);
      }
      AdvanceKeepsFloor(keyOf, m, step.tid, m', id, floor);
    }
  }

  lemma {:induction false} RunKeepsFloor(keyOf: KeyOf, m: Machine, steps: seq<Step>, id: FileId, floor: int)
    requires LockInv(keyOf, m) && ShapeInv(m) && FloorInv(m, id, floor) && floor <= 0 && OnlyProper(steps, id, floor)
    ensures FloorInv(Run(keyOf, m, steps), id, floor)
    decreases |steps|
  {
    if steps == [] {
    } else {
      StepKeepsLocks(keyOf, m, steps[0]);
      StepKeepsShape(keyOf, m, steps[0]);
      StepKeepsFloor(keyOf, m, steps[0], id, floor);
      RunKeepsFloor(keyOf, Apply(keyOf, m, steps[0]), steps[1..], id, floor);
    }
  }

  /**
   With edits in the mix the limit may be raised, lowered, lifted and set again, and a download may still act
   on a record from before. Even so downloads never take the stored remaining count of a file below zero: it
   is never below zero, the count at the start and the lowest limit that an edit sets.
   */
  lemma RemainingStaysAboveTheFloor(keyOf: KeyOf, initial: Rows, steps: seq<Step>, id: FileId, floor: int)
    requires ValidRows(initial) && id in initial
    requires floor <= 0 && floor <= initial[id].downloadsRemaining && OnlyProper(steps, id, floor)
    ensures var m := Run(keyOf, Init(initial), steps); id in m.rows && m.rows[id].downloadsRemaining >= floor
  {
    InitInv(keyOf, initial);
    RunKeepsFloor(keyOf, Init(initial), steps, id, floor);
  }
}
