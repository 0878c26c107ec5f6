/** How downloads and edits of one file end, whatever runs next to them. */
module DownloadOutcomes {
  import opened Wrappers
  import opened Models
  import opened Database
  import opened DownloadCounting

  /** The record is not expired by time, nor, with this many downloads left, by count. */
  predicate IsServable(file: File, remaining: int, now: int) {
    && (file.unlimitedTime || now <= file.expireAt)
    && (file.unlimitedDownloads || remaining >= 1)
  }

  /** ServeFile goes on and sends the file, or has already done so. */
  predicate IsLetThrough(t: Thread) {
    t.pc == Counting || t.pc == Unlocking(true) || t.pc == Finished(true)
  }

  predicate IsRefused(t: Thread) {
    t.pc == Unlocking(false) || t.pc == Finished(false)
  }

  // ---------------------------------------------------------------- what holds between the statements of a request

  /** A record and a copy of it that may only have an older number of downloads left. */
  predicate IsCopyOf(file: File, copy: File) {
    copy == file.(downloadsRemaining := copy.downloadsRemaining)
  }

  /** An edit changes what was asked for and nothing else. */
  predicate IsEditOf(file: File, request: EditRequest, edited: File) {
    && edited == file.(downloadsRemaining := edited.downloadsRemaining, unlimitedDownloads := edited.unlimitedDownloads,
                       expireAt := edited.expireAt, unlimitedTime := edited.unlimitedTime, passwordHash := edited.passwordHash)
    && (if request.unlimitedDownloads then edited.unlimitedDownloads && edited.downloadsRemaining == file.downloadsRemaining
        else if request.allowedDownloads == 0 then
          edited.unlimitedDownloads == file.unlimitedDownloads && edited.downloadsRemaining == file.downloadsRemaining
        else !edited.unlimitedDownloads && edited.downloadsRemaining == request.allowedDownloads)
    && (if request.unlimitedExpiry then edited.unlimitedTime && edited.expireAt == file.expireAt
        else if request.expiryTimestamp == 0 then edited.unlimitedTime == file.unlimitedTime && edited.expireAt == file.expireAt
        else !edited.unlimitedTime && edited.expireAt == request.expiryTimestamp)
    && edited.passwordHash == (if request.keepPassword then file.passwordHash else request.passwordHash)
  }

  /** The editor may change the record: its own, or any with the permission for files of others. */
  predicate MayEdit(file: File, kind: Kind) {
    match kind
    case Edit(_, editor, mayEditOthers) => file.userId == editor || mayEditOthers
    case ChangeOwner(_, mayEditOthers, ownerExists) => mayEditOthers && ownerExists
    case Download(_, _) => false
  }

  /** What is about to be saved, against what is stored at this moment. */
  predicate IsChangeOf(file: File, kind: Kind, changed: File) {
    match kind
    case Edit(request, _, _) => IsEditOf(file, request, changed)
    case ChangeOwner(newOwner, _, _) => changed == file.(userId := newOwner)
    case Download(_, _) => false
  }

  /** What a request inside its section knows about the stored record. */
  predicate SectionFacts(rows: Rows, t: Thread) {
    && (t.pc == Rereading || t.pc == Checking ==> t.kind.Download? && t.kind.recheckExpiry)
    && (t.pc == Checking && t.file.Some? && !t.file.value.unlimitedDownloads && t.id in rows ==>
          t.file.value.downloadsRemaining == rows[t.id].downloadsRemaining)
    && (t.pc == Saving && t.file.Some? && t.id in rows ==>
          MayEdit(rows[t.id], t.kind) && IsChangeOf(rows[t.id], t.kind, t.file.value))
  }

  ghost predicate SectionFactsInv(m: Machine) {
    forall tid :: tid in m.threads ==> SectionFacts(m.rows, m.threads[tid])
  }

  lemma EditedIsEdit(file: File, request: EditRequest)
    ensures IsEditOf(file, request, Edited(file, request))
  {
  }

  lemma NextThreadSectionFacts(rows: Rows, t: Thread, now: int, sourceExists: bool)
    requires ValidRows(rows) && WellShaped(rows, t) && SectionFacts(rows, t)
    ensures SectionFacts(NextRows(rows, t), NextThread(rows, t, now, sourceExists))
  {
    if t.pc == Reading && t.kind.Edit? && t.id in rows {
      EditedIsEdit(rows[t.id], t.kind.request);
    }
  }

  lemma AdvanceKeepsSectionFacts(keyOf: KeyOf, m: Machine, tid: Tid, m': Machine)
    requires LockInv(keyOf, m) && SectionFactsInv(m) && IsStep(keyOf, m, tid, m')
    requires SectionFacts(m'.rows, m'.threads[tid])
    ensures SectionFactsInv(m')
  {
    forall u | u in m.threads && u != tid
      ensures SectionFacts(m'.rows, m.threads[u])
    {
      assert SectionFacts(m.rows, m.threads[u]);
      if InSection(m.threads[tid]) && InSection(m.threads[u]) { SectionIsExclusive(keyOf, m, tid, u); }
    }
  }

  ghost predicate ReachInv(keyOf: KeyOf, m: Machine) {
    LockInv(keyOf, m) && ShapeInv(m) && SectionFactsInv(m)
  }

  lemma StepKeepsReach(keyOf: KeyOf, m: Machine, step: Step)
    requires ReachInv(keyOf, m)
    ensures ReachInv(keyOf, Apply(keyOf, m, step))
  {
    var m' := Apply(keyOf, m, step);
    StepKeepsLocks(keyOf, m, step);
    StepKeepsShape(keyOf, m, step);
    ApplyIsStep(keyOf, m, step);
    if step.Advance? && m' != m {
      NextThreadSectionFacts(m.rows, m.threads[step.tid], step.now, step.sourceExists);
      AdvanceKeepsSectionFacts(keyOf, m, step.tid, m');
    }
  }

  lemma {:induction false} RunKeepsReach(keyOf: KeyOf, m: Machine, steps: seq<Step>)
    requires ReachInv(keyOf, m)
    ensures ReachInv(keyOf, Run(keyOf, m, steps))
    decreases |steps|
  {
    if steps == [] {
    } else {
      StepKeepsReach(keyOf, m, steps[0]);
      RunKeepsReach(keyOf, Apply(keyOf, m, steps[0]), steps[1..]);
    }
  }

  lemma ReachableInv(keyOf: KeyOf, initial: Rows, steps: seq<Step>)
    requires ValidRows(initial)
    ensures ReachInv(keyOf, Run(keyOf, Init(initial), steps))
  {
    RunKeepsReach(keyOf, Init(initial), steps);
  }

  // ---------------------------------------------------------------- the outcome of a download

  /** The download has fetched the record and has it still, or has ended before it did. */
  predicate HasFetched(t: Thread, file: File) {
    t.pc != Fetching && t.file.Some? && IsCopyOf(file, t.file.value)
  }

  lemma NextThreadKeepsFetched(rows: Rows, t: Thread, now: int, sourceExists: bool, file: File)
    requires WellShaped(rows, t) && t.kind.Download? && HasFetched(t, file)
    ensures var t' := NextThread(rows, t, now, sourceExists); t'.kind == t.kind && t'.id == t.id && HasFetched(t', file)
  {
  }

  lemma StepKeepsFetched(keyOf: KeyOf, m: Machine, step: Step, tid: Tid, file: File)
    requires ShapeInv(m) && tid in m.threads && m.threads[tid].kind.Download? && HasFetched(m.threads[tid], file)
    ensures var m' := Apply(keyOf, m, step);
            tid in m'.threads && m'.threads[tid].kind == m.threads[tid].kind && m'.threads[tid].id == m.threads[tid].id
            && HasFetched(m'.threads[tid], file)
  {
    if step.Advance? && step.tid == tid {
      NextThreadKeepsFetched(m.rows, m.threads[tid], step.now, step.sourceExists, file);
    }
  }

  lemma StepKeepsOutcome(keyOf: KeyOf, m: Machine, step: Step, tid: Tid)
    requires tid in m.threads && m.threads[tid].kind.Download?
    ensures var m' := Apply(keyOf, m, step);
            && tid in m'.threads && m'.threads[tid].kind == m.threads[tid].kind
            && (IsLetThrough(m.threads[tid]) ==> IsLetThrough(m'.threads[tid]))
            && (IsRefused(m.threads[tid]) ==> IsRefused(m'.threads[tid]))
  {
  }

  lemma {:induction false} RunKeepsOutcome(keyOf: KeyOf, m: Machine, steps: seq<Step>, tid: Tid)
    requires tid in m.threads && m.threads[tid].kind.Download?
    ensures var m' := Run(keyOf, m, steps);
            && tid in m'.threads && m'.threads[tid].kind == m.threads[tid].kind
            && (IsLetThrough(m.threads[tid]) ==> IsLetThrough(m'.threads[tid]))
            && (IsRefused(m.threads[tid]) ==> IsRefused(m'.threads[tid]))
    decreases |steps|
  {
    if steps == [] {
    } else {
      StepKeepsOutcome(keyOf, m, steps[0], tid);
      RunKeepsOutcome(keyOf, Apply(keyOf, m, steps[0]), steps[1..], tid);
    }
  }

  lemma {:induction false} RunKeepsFetched(keyOf: KeyOf, m: Machine, steps: seq<Step>, tid: Tid, file: File)
    requires ReachInv(keyOf, m) && tid in m.threads && m.threads[tid].kind.Download? && HasFetched(m.threads[tid], file)
    ensures var m' := Run(keyOf, m, steps);
            tid in m'.threads && m'.threads[tid].kind == m.threads[tid].kind && m'.threads[tid].id == m.threads[tid].id
            && HasFetched(m'.threads[tid], file)
    decreases |steps|
  {
    if steps == [] {
    } else {
      StepKeepsFetched(keyOf, m, steps[0], tid, file);
      StepKeepsReach(keyOf, m, steps[0]);
      RunKeepsFetched(keyOf, Apply(keyOf, m, steps[0]), steps[1..], tid, file);
    }
  }

  /** GetFile, without a lock: the record is fetched exactly if it is there, not marked as deleted, not expired, and has its source. */
  lemma FetchIsExact(keyOf: KeyOf, m: Machine, tid: Tid, now: int, sourceExists: bool)
    requires tid in m.threads && m.threads[tid].pc == Fetching
    ensures var t, t' := m.threads[tid], Apply(keyOf, m, Advance(tid, now, sourceExists)).threads[tid];
            if t.id != NO_ID && t.id in m.rows && m.rows[t.id].pendingDeletion == 0
               && IsServable(m.rows[t.id], m.rows[t.id].downloadsRemaining, now) && sourceExists
            then t'.pc == Locking && t'.file == Some(m.rows[t.id])
            else t'.pc == Finished(false)
  {
  }

  /** The recheck under the lock decides, by the fetched record and the number of downloads that is stored at this moment. */
  lemma RecheckIsExact(keyOf: KeyOf, m: Machine, tid: Tid, now: int, sourceExists: bool)
    requires ReachInv(keyOf, m) && tid in m.threads && m.threads[tid].pc == Checking
    ensures var t, t' := m.threads[tid], Apply(keyOf, m, Advance(tid, now, sourceExists)).threads[tid];
            && t.file.Some? && t.id in m.rows && t.kind.Download?
            && if IsServable(t.file.value, m.rows[t.id].downloadsRemaining, now) then IsLetThrough(t') else IsRefused(t')
  {
  }

  lemma NextThreadDecides(rows: Rows, t: Thread, now: int, sourceExists: bool)
    requires WellShaped(rows, t) && SectionFacts(rows, t) && t.kind.Download?
    ensures var t' := NextThread(rows, t, now, sourceExists);
            && (IsRefused(t') ==> IsRefused(t) || t.pc == Fetching || (t.pc == Checking && t.kind.recheckExpiry))
            && (IsLetThrough(t') ==> IsLetThrough(t) || t.pc == if t.kind.recheckExpiry then Checking else Locking)
  {
  }

  /** A download is only refused by GetFile and by the recheck; it is let through by the recheck, if it asks for one. */
  lemma NothingElseDecides(keyOf: KeyOf, m: Machine, step: Step, tid: Tid)
    requires ReachInv(keyOf, m) && tid in m.threads && m.threads[tid].kind.Download?
    ensures tid in Apply(keyOf, m, step).threads
    ensures var t, t' := m.threads[tid], Apply(keyOf, m, step).threads[tid];
            && (IsRefused(t') ==> IsRefused(t) || t.pc == Fetching || (t.pc == Checking && t.kind.recheckExpiry))
            && (IsLetThrough(t') ==> IsLetThrough(t) || t.pc == if t.kind.recheckExpiry then Checking else Locking)
  {
    if step.Advance? && step.tid == tid {
      NextThreadDecides(m.rows, m.threads[tid], step.now, step.sourceExists);
    }
  }

  lemma FetchedUntilTheRecheck(keyOf: KeyOf, m0: Machine, tid: Tid, fetch: Step, middle: seq<Step>)
    requires ReachInv(keyOf, m0) && fetch.Advance? && fetch.tid == tid
    requires tid in m0.threads && m0.threads[tid].pc == Fetching && m0.threads[tid].kind.Download?
    requires var m1 := Run(keyOf, Apply(keyOf, m0, fetch), middle); tid in m1.threads && m1.threads[tid].pc == Checking
    ensures var m1 := Run(keyOf, Apply(keyOf, m0, fetch), middle);
            var id := m0.threads[tid].id;
            && ReachInv(keyOf, m1) && id in m0.rows && m1.threads[tid].kind.Download? && m1.threads[tid].id == id
            && HasFetched(m1.threads[tid], m0.rows[id])
  {
    FetchIsExact(keyOf, m0, tid, fetch.now, fetch.sourceExists);
    var id, start := m0.threads[tid].id, Apply(keyOf, m0, fetch);
    StepKeepsReach(keyOf, m0, fetch);
    RunKeepsOutcome(keyOf, start, middle, tid);
    assert !IsRefused(start.threads[tid]);
    RunKeepsFetched(keyOf, start, middle, tid, m0.rows[id]);
    RunKeepsReach(keyOf, start, middle);
  }

  lemma DecidedFromTheRecheck(keyOf: KeyOf, m1: Machine, tid: Tid, file: File, check: Step, after: seq<Step>)
    requires ReachInv(keyOf, m1) && check.Advance? && check.tid == tid
    requires tid in m1.threads && m1.threads[tid].pc == Checking && m1.threads[tid].kind.Download? && HasFetched(m1.threads[tid], file)
    ensures var m2 := Run(keyOf, Apply(keyOf, m1, check), after);
            var id := m1.threads[tid].id;
            && id in m1.rows && tid in m2.threads
            && if IsServable(file, m1.rows[id].downloadsRemaining, check.now) then IsLetThrough(m2.threads[tid]) else IsRefused(m2.threads[tid])
  {
    RecheckIsExact(keyOf, m1, tid, check.now, check.sourceExists);
    StepKeepsOutcome(keyOf, m1, check, tid);
    RunKeepsOutcome(keyOf, Apply(keyOf, m1, check), after, tid);
  }

  /**
   Main theorem: a download that fetched a record at one time and reaches its recheck at another, with anything
   before, in between and afterwards, is let through exactly if at the recheck the fetched record is not expired
   by time, nor by the number of downloads stored then. Nothing later changes that.
   */
  lemma ADownloadIsDecidedAtItsRecheck(keyOf: KeyOf, initial: Rows, before: seq<Step>, tid: Tid, fetch: Step, middle: seq<Step>,
                                       check: Step, after: seq<Step>)
    requires ValidRows(initial) && fetch.Advance? && fetch.tid == tid && check.Advance? && check.tid == tid
    requires var m0 := Run(keyOf, Init(initial), before); tid in m0.threads && m0.threads[tid].pc == Fetching
    requires var m1 := Run(keyOf, Apply(keyOf, Run(keyOf, Init(initial), before), fetch), middle);
             tid in m1.threads && m1.threads[tid].pc == Checking
    ensures var m0 := Run(keyOf, Init(initial), before);
            var m1 := Run(keyOf, Apply(keyOf, m0, fetch), middle);
            var m2 := Run(keyOf, Apply(keyOf, m1, check), after);
            var id := m0.threads[tid].id;
            && id in m0.rows && id in m1.rows && tid in m2.threads
            && if IsServable(m0.rows[id], m1.rows[id].downloadsRemaining, check.now) then IsLetThrough(m2.threads[tid])
               else IsRefused(m2.threads[tid])
  {
    ReachableInv(keyOf, initial, before);
    var m0 := Run(keyOf, Init(initial), before);
    assert WellShaped(m0.rows, m0.threads[tid]);
    FetchedUntilTheRecheck(keyOf, m0, tid, fetch, middle);
    DecidedFromTheRecheck(keyOf, Run(keyOf, Apply(keyOf, m0, fetch), middle), tid, m0.rows[m0.threads[tid].id], check, after);
  }

  // ---------------------------------------------------------------- downloads one after the other

  lemma RunFirst(keyOf: KeyOf, m: Machine, step: Step, rest: seq<Step>)
    ensures Run(keyOf, m, [step] + rest) == Run(keyOf, Apply(keyOf, m, step), rest)
  {
    assert ([step] + rest)[1..] == rest;
  }

  lemma {:induction false} RunAppend(keyOf: KeyOf, m: Machine, a: seq<Step>, b: seq<Step>)
    ensures Run(keyOf, m, a + b) == Run(keyOf, Run(keyOf, m, a), b)
    decreases |a|
  {
    if a == [] {
      assert a + b == b;
    } else {
      assert (a + b)[1..] == a[1..] + b;
      RunAppend(keyOf, Apply(keyOf, m, a[0]), a[1..], b);
    }
  }

  /** The request takes `n` statements in a row. */
  function Statements(tid: Tid, now: int, n: nat): seq<Step> {
    if n == 0 then [] else [Advance(tid, now, true)] + Statements(tid, now, n - 1)
  }

  /** A public download from its start to its end, at one time. */
  function WholeDownload(tid: Tid, id: FileId, now: int): seq<Step> {
    [Start(tid, id, Download(true, true))] + Statements(tid, now, 6)
  }

  /** The machine with one request somewhere on its way. */
  function With(m: Machine, rows: Rows, stripes: map<nat, Tid>, tid: Tid, t: Thread): Machine {
    Machine(rows, stripes, m.threads[tid := t])
  }

  /** Nothing holds the lock of the file, and it can be downloaded but for the number of downloads left. */
  predicate IsQuiet(keyOf: KeyOf, m: Machine, id: FileId, now: int) {
    && id != NO_ID && id in m.rows && m.rows[id].id == id && Stripe(keyOf, id) !in m.stripes
    && m.rows[id].pendingDeletion == 0 && (m.rows[id].unlimitedTime || now <= m.rows[id].expireAt)
    && !m.rows[id].unlimitedDownloads
  }

  /** One more download: served and counted if one is left, refused otherwise, and everything else as it was. */
  ghost predicate IsAfterDownload(m: Machine, m': Machine, tid: Tid, id: FileId)
    requires id in m.rows
  {
    var isServed := m.rows[id].downloadsRemaining >= 1;
    && tid in m'.threads && m'.threads == m.threads[tid := m'.threads[tid]]
    && m'.threads[tid].pc == Finished(isServed)
    && m'.stripes == m.stripes
    && m'.rows == if isServed then m.rows[id := m.rows[id].(downloadCount := m.rows[id].downloadCount + 1,
                                                            downloadsRemaining := m.rows[id].downloadsRemaining - 1)]
                  else m.rows
  }

  lemma OneStatement(keyOf: KeyOf, m: Machine, rows: Rows, stripes: map<nat, Tid>, tid: Tid, t: Thread, now: int, n: nat)
    requires !IsWaiting(keyOf, With(m, rows, stripes, tid, t), t)
    ensures Run(keyOf, With(m, rows, stripes, tid, t), Statements(tid, now, n + 1))
            == Run(keyOf, With(m, NextRows(rows, t), NextStripes(stripes, tid, t.pc, Stripe(keyOf, t.id)), tid, NextThread(rows, t, now, true)),
                   Statements(tid, now, n))
  {
    var here := With(m, rows, stripes, tid, t);
    RunFirst(keyOf, here, Advance(tid, now, true), Statements(tid, now, n));
    assert m.threads[tid := t][tid := NextThread(rows, t, now, true)] == m.threads[tid := NextThread(rows, t, now, true)];
  }

  /** A request that has ended stays as it is. */
  lemma {:induction false} NothingMoreHappens(keyOf: KeyOf, m: Machine, tid: Tid, now: int, n: nat)
    requires tid in m.threads && m.threads[tid].pc.Finished?
    ensures Run(keyOf, m, Statements(tid, now, n)) == m
  {
    if n == 0 {
    } else {
      RunFirst(keyOf, m, Advance(tid, now, true), Statements(tid, now, n - 1));
      assert m.threads[tid := m.threads[tid]] == m.threads;
      NothingMoreHappens(keyOf, m, tid, now, n - 1);
    }
  }

  lemma ARefusedDownload(keyOf: KeyOf, m: Machine, tid: Tid, id: FileId, now: int)
    requires IsQuiet(keyOf, m, id, now) && tid !in m.threads && m.rows[id].downloadsRemaining < 1
    ensures IsAfterDownload(m, Run(keyOf, m, WholeDownload(tid, id, now)), tid, id)
  {
    var t := NewThread(id, Download(true, true));
    RunFirst(keyOf, m, Start(tid, id, Download(true, true)), Statements(tid, now, 6));
    OneStatement(keyOf, m, m.rows, m.stripes, tid, t, now, 5);
    NothingMoreHappens(keyOf, With(m, m.rows, m.stripes, tid, NextThread(m.rows, t, now, true)), tid, now, 5);
  }

  lemma UntilTheRecheck(keyOf: KeyOf, m: Machine, tid: Tid, id: FileId, now: int)
    requires IsQuiet(keyOf, m, id, now) && tid !in m.threads && m.rows[id].downloadsRemaining >= 1
    ensures Run(keyOf, m, WholeDownload(tid, id, now))
            == Run(keyOf, With(m, m.rows, m.stripes[Stripe(keyOf, id) := tid], tid, Thread(id, Download(true, true), Some(m.rows[id]), Rereading)),
                   Statements(tid, now, 4))
  {
    var kind := Download(true, true);
    RunFirst(keyOf, m, Start(tid, id, kind), Statements(tid, now, 6));
    OneStatement(keyOf, m, m.rows, m.stripes, tid, Thread(id, kind, None, Fetching), now, 5);
    OneStatement(keyOf, m, m.rows, m.stripes, tid, Thread(id, kind, Some(m.rows[id]), Locking), now, 4);
  }

  lemma RecheckPasses(keyOf: KeyOf, m: Machine, id: FileId, now: int)
    requires IsQuiet(keyOf, m, id, now) && m.rows[id].downloadsRemaining >= 1
    ensures var kind, file := Download(true, true), m.rows[id];
            && NextThread(m.rows, Thread(id, kind, Some(file), Rereading), now, true) == Thread(id, kind, Some(file), Checking)
            && NextThread(m.rows, Thread(id, kind, Some(file), Checking), now, true) == Thread(id, kind, Some(file), Counting)
  {
    assert m.rows[id].(downloadsRemaining := DownloadsRemaining(m.rows, id)) == m.rows[id];
  }

  lemma UntilTheCount(keyOf: KeyOf, m: Machine, stripes: map<nat, Tid>, tid: Tid, id: FileId, now: int)
    requires IsQuiet(keyOf, m, id, now) && m.rows[id].downloadsRemaining >= 1
    ensures var kind, file := Download(true, true), m.rows[id];
            Run(keyOf, With(m, m.rows, stripes, tid, Thread(id, kind, Some(file), Rereading)), Statements(tid, now, 4))
            == Run(keyOf, With(m, m.rows, stripes, tid, Thread(id, kind, Some(file), Counting)), Statements(tid, now, 2))
  {
    var kind, file := Download(true, true), m.rows[id];
    RecheckPasses(keyOf, m, id, now);
    OneStatement(keyOf, m, m.rows, stripes, tid, Thread(id, kind, Some(file), Rereading), now, 3);
    OneStatement(keyOf, m, m.rows, stripes, tid, Thread(id, kind, Some(file), Checking), now, 2);
  }

  lemma FromTheCount(keyOf: KeyOf, m: Machine, rows: Rows, stripes: map<nat, Tid>, tid: Tid, id: FileId, file: File, now: int)
    requires !file.unlimitedDownloads
    ensures var kind := Download(true, true);
            Run(keyOf, With(m, rows, stripes, tid, Thread(id, kind, Some(file), Counting)), Statements(tid, now, 2))
            == With(m, Counted(rows, id, true), stripes - {Stripe(keyOf, id)}, tid, Thread(id, kind, Some(file), Finished(true)))
  {
    var kind := Download(true, true);
    OneStatement(keyOf, m, rows, stripes, tid, Thread(id, kind, Some(file), Counting), now, 1);
    OneStatement(keyOf, m, Counted(rows, id, true), stripes, tid, Thread(id, kind, Some(file), Unlocking(true)), now, 0);
  }

  lemma AServedDownload(keyOf: KeyOf, m: Machine, tid: Tid, id: FileId, now: int)
    requires IsQuiet(keyOf, m, id, now) && tid !in m.threads && m.rows[id].downloadsRemaining >= 1
    ensures IsAfterDownload(m, Run(keyOf, m, WholeDownload(tid, id, now)), tid, id)
  {
    var stripe := Stripe(keyOf, id);
    var locked := m.stripes[stripe := tid];
    UntilTheRecheck(keyOf, m, tid, id, now);
    UntilTheCount(keyOf, m, locked, tid, id, now);
    FromTheCount(keyOf, m, m.rows, locked, tid, id, m.rows[id], now);
    StripeIsFreeAgain(m.stripes, stripe, tid);
    ServedIsAfter(m, tid, id, m.rows[id]);
  }

  lemma ServedIsAfter(m: Machine, tid: Tid, id: FileId, file: File)
    requires id in m.rows && m.rows[id].downloadsRemaining >= 1
    ensures IsAfterDownload(m, With(m, Counted(m.rows, id, true), m.stripes, tid, Thread(id, Download(true, true), Some(file), Finished(true))), tid, id)
  {
  }

  lemma StripeIsFreeAgain(stripes: map<nat, Tid>, stripe: nat, tid: Tid)
    requires stripe !in stripes
    ensures stripes[stripe := tid] - {stripe} == stripes
  {
  }

  /** Public downloads of one file, each after the end of the one before. */
  function OneAfterTheOther(tids: seq<Tid>, id: FileId, now: int): seq<Step> {
    if tids == [] then [] else WholeDownload(tids[0], id, now) + OneAfterTheOther(tids[1..], id, now)
  }

  predicate AreNew(m: Machine, tids: seq<Tid>) {
    && (forall i :: 0 <= i < |tids| ==> tids[i] !in m.threads)
    && (forall i, j :: 0 <= i < j < |tids| ==> tids[i] != tids[j])
  }

  lemma IsQuietAgain(keyOf: KeyOf, m: Machine, m': Machine, tids: seq<Tid>, id: FileId, now: int)
    requires tids != [] && IsQuiet(keyOf, m, id, now) && AreNew(m, tids) && m.rows[id].downloadsRemaining >= 0
    requires IsAfterDownload(m, m', tids[0], id)
    ensures IsQuiet(keyOf, m', id, now) && AreNew(m', tids[1..]) && m'.rows[id].downloadsRemaining >= 0
  {
  }

  function Min(a: int, b: int): int {
    if a < b then a else b
  }

  /**
   Main theorem: of n public downloads, one after the other, of a file with R downloads left, exactly the first R
   are served, and both stored numbers show it.
   */
  lemma {:induction false} TheFirstDownloadsAreServed(keyOf: KeyOf, m: Machine, tids: seq<Tid>, id: FileId, now: int)
    requires IsQuiet(keyOf, m, id, now) && AreNew(m, tids) && m.rows[id].downloadsRemaining >= 0
    ensures var m' := Run(keyOf, m, OneAfterTheOther(tids, id, now));
            var served := Min(|tids|, m.rows[id].downloadsRemaining);
            && id in m'.rows
            && m'.rows[id].downloadsRemaining == m.rows[id].downloadsRemaining - served
            && m'.rows[id].downloadCount == m.rows[id].downloadCount + served
            && (forall i :: 0 <= i < |tids| ==> tids[i] in m'.threads && m'.threads[tids[i]].pc == Finished(i < m.rows[id].downloadsRemaining))
            && (forall tid :: tid in m.threads ==> tid in m'.threads && m'.threads[tid] == m.threads[tid])
    decreases |tids|
  {
    if tids == [] {
    } else {
      var tid, rest := tids[0], tids[1..];
      if m.rows[id].downloadsRemaining >= 1 {
        AServedDownload(keyOf, m, tid, id, now);
      } else {
        ARefusedDownload(keyOf, m, tid, id, now);
      }
      var next := Run(keyOf, m, WholeDownload(tid, id, now));
      RunAppend(keyOf, m, WholeDownload(tid, id, now), OneAfterTheOther(rest, id, now));
      IsQuietAgain(keyOf, m, next, tids, id, now);
      TheFirstDownloadsAreServed(keyOf, next, rest, id, now);
      assert forall i :: 1 <= i < |tids| ==> tids[i] == rest[i - 1];
    }
  }

  // ---------------------------------------------------------------- edits

  /** What an editor reads under the lock: an edit takes any record, a change of owner needs one that GetFile finds. */
  predicate IsEditable(rows: Rows, t: Thread, now: int, sourceExists: bool) {
    && t.id in rows
    && (t.kind.ChangeOwner? ==> t.id != NO_ID && rows[t.id].pendingDeletion == 0 && sourceExists
                                && IsServable(rows[t.id], rows[t.id].downloadsRemaining, now))
  }

  lemma ReadingDecides(rows: Rows, t: Thread, now: int, sourceExists: bool)
    requires WellShaped(rows, t) && t.pc == Reading
    ensures NextThread(rows, t, now, sourceExists).pc
            == if IsEditable(rows, t, now, sourceExists) && MayEdit(rows[t.id], t.kind) then Saving else Unlocking(false)
  {
  }

  /** An editor goes on exactly if the record is there and it may change it. */
  lemma OnlyPermittedEditsAreSaved(keyOf: KeyOf, m: Machine, tid: Tid, now: int, sourceExists: bool)
    requires ReachInv(keyOf, m) && tid in m.threads && m.threads[tid].pc == Reading
    ensures var t, t' := m.threads[tid], Apply(keyOf, m, Advance(tid, now, sourceExists)).threads[tid];
            if IsEditable(m.rows, t, now, sourceExists) && MayEdit(m.rows[t.id], t.kind) then t'.pc == Saving else IsRefused(t')
  {
    ReadingDecides(m.rows, m.threads[tid], now, sourceExists);
  }

  /** And then the stored record is changed as it asked, from what it is at that moment. */
  lemma PermittedEditsAreSaved(keyOf: KeyOf, initial: Rows, steps: seq<Step>, tid: Tid, now: int, sourceExists: bool)
    requires ValidRows(initial)
    requires var m := Run(keyOf, Init(initial), steps); tid in m.threads && m.threads[tid].pc == Saving
    ensures var m := Run(keyOf, Init(initial), steps);
            var m' := Apply(keyOf, m, Advance(tid, now, sourceExists));
            var t := m.threads[tid];
            && t.id in m.rows && MayEdit(m.rows[t.id], t.kind)
            && t.id in m'.rows && IsChangeOf(m.rows[t.id], t.kind, m'.rows[t.id])
            && m'.threads[tid].pc == Unlocking(true)
  {
    ReachableInv(keyOf, initial, steps);
    var m := Run(keyOf, Init(initial), steps);
    assert WellShaped(m.rows, m.threads[tid]) && SectionFacts(m.rows, m.threads[tid]);
  }

  /** What one statement may make of the record of its file. */
  predicate IsAccountedFor(t: Thread, file: File, file': File) {
    if t.kind.Download? then
      && t.kind.increaseCounter
      && file' == file.(downloadCount := file.downloadCount + 1, downloadsRemaining := file'.downloadsRemaining)
      && (file'.downloadsRemaining == file.downloadsRemaining || file'.downloadsRemaining == file.downloadsRemaining - 1)
    else MayEdit(file, t.kind) && IsChangeOf(file, t.kind, file')
  }

  lemma NextRowsAreAccountedFor(rows: Rows, t: Thread, id: FileId)
    requires ValidRows(rows) && WellShaped(rows, t) && SectionFacts(rows, t) && id in rows
    ensures var rows' := NextRows(rows, t);
            id in rows' && (rows'[id] != rows[id] ==> t.id == id && IsAccountedFor(t, rows[id], rows'[id]))
  {
  }

  /**
   Main theorem: in any run, whatever changes a stored record is either a download that counts itself, or an edit
   that may change it and that leaves everything as it is at this moment but for what was asked.
   */
  lemma EveryChangeIsAccountedFor(keyOf: KeyOf, initial: Rows, steps: seq<Step>, step: Step, id: FileId)
    requires ValidRows(initial) && id in Run(keyOf, Init(initial), steps).rows
    ensures var m := Run(keyOf, Init(initial), steps);
            var m' := Apply(keyOf, m, step);
            && id in m'.rows
            && (m'.rows[id] != m.rows[id] ==>
                  step.Advance? && step.tid in m.threads && m.threads[step.tid].id == id
                  && IsAccountedFor(m.threads[step.tid], m.rows[id], m'.rows[id]))
  {
    ReachableInv(keyOf, initial, steps);
    var m := Run(keyOf, Init(initial), steps);
    if step.Advance? && step.tid in m.threads {
      NextRowsAreAccountedFor(m.rows, m.threads[step.tid], id);
    }
  }
}
