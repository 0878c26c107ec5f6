/** What repeated clean-ups amount to. */
module FileStoreSweep {
  import opened Models
  import opened Database
  import opened DownloadStatuses
  import opened FileStore

  lemma CleanedTwice(statuses: StatusMap, earlier: int, later: int)
    requires earlier <= later
    ensures Cleaned(Cleaned(statuses, earlier), later) == Cleaned(statuses, later)
  {
  }

  /** Cleaning the status map first does not change which files count as being downloaded. */
  lemma CleanedKeepsDownloads(statuses: StatusMap, earlier: int, later: int, fileId: FileId)
    requires earlier <= later
    ensures IsCurrentlyDownloading(Cleaned(statuses, earlier), fileId, later) <==> IsCurrentlyDownloading(statuses, fileId, later)
  {
    var cleaned := Cleaned(statuses, earlier);
    if k :| k in statuses && statuses[k].fileId == fileId && statuses[k].expireAt > later {
      assert k in cleaned && cleaned[k] == statuses[k];
    }
  }

  /** An entry that is due stays due. */
  lemma DueStaysDue(s: Store, file: File, earlier: int, later: int)
    requires earlier <= later && Keeps(s, file, later)
    ensures Keeps(s, file, earlier)
  {
  }

  /** A kept entry looks the same to a later clean-up, before and after the earlier one. */
  lemma KeepsAfterSweep(s: Store, earlier: int, later: int, id: FileId)
    requires earlier <= later && id in KeptFiles(s, earlier)
    ensures Keeps(Swept(s, earlier), s.files[id], later) <==> Keeps(s, s.files[id], later)
  {
    assert IsNamed(KeptFiles(s, earlier), s.files[id].sha1) by {
      assert KeptFiles(s, earlier)[id].sha1 == s.files[id].sha1;
    }
    CleanedKeepsDownloads(s.statuses, earlier, later, s.files[id].id);
  }

  lemma KeptFilesTwice(s: Store, earlier: int, later: int)
    requires earlier <= later
    ensures KeptFiles(Swept(s, earlier), later) == KeptFiles(s, later)
  {
    forall id | id in s.files && Keeps(s, s.files[id], later)
      ensures id in KeptFiles(Swept(s, earlier), later)
    {
      DueStaysDue(s, s.files[id], earlier, later);
      KeepsAfterSweep(s, earlier, later, id);
    }
    forall id | id in KeptFiles(Swept(s, earlier), later)
      ensures id in KeptFiles(s, later)
    {
      KeepsAfterSweep(s, earlier, later, id);
    }
  }

  lemma KeptSourcesTwice(sources: Sources, files: Rows, kept1: Rows, kept2: Rows)
    requires forall id :: id in kept1 ==> id in files && kept1[id] == files[id]
    requires forall id :: id in kept2 ==> id in kept1 && kept2[id] == kept1[id]
    ensures KeptSources(KeptSources(sources, files, kept1), kept1, kept2) == KeptSources(sources, files, kept2)
  {
    forall h | IsNamed(kept2, h) ensures IsNamed(kept1, h) {
      var id :| id in kept2 && kept2[id].sha1 == h;
      assert kept1[id].sha1 == h;
    }
    forall h | IsNamed(kept1, h) ensures IsNamed(files, h) {
      var id :| id in kept1 && kept1[id].sha1 == h;
      assert files[id].sha1 == h;
    }
  }

  /** Cleaning up again, at once or later, amounts to the later clean-up alone. */
  lemma SweptTwice(s: Store, earlier: int, later: int)
    requires earlier <= later
    ensures Swept(Swept(s, earlier), later) == Swept(s, later)
  {
    KeptFilesTwice(s, earlier, later);
    CleanedTwice(s.statuses, earlier, later);
    var kept1, kept2 := KeptFiles(s, earlier), KeptFiles(s, later);
    forall id | id in kept2 ensures id in kept1 {
      DueStaysDue(s, s.files[id], earlier, later);
    }
    KeptSourcesTwice(s.sources, s.files, kept1, kept2);
  }

  /** Dropping one entry costs its source exactly if no remaining entry names it. */
  lemma KeptSourcesStep(sources: Sources, files: Rows, kept: Rows, key: FileId)
    requires key in kept && forall id :: id in kept ==> id in files && kept[id] == files[id]
    ensures var hash, rest := files[key].sha1, kept - {key};
            && (hash in KeptSources(sources, files, kept) <==> hash in sources)
            && KeptSources(sources, files, rest) ==
               if IsNamed(rest, hash) then KeptSources(sources, files, kept) else KeptSources(sources, files, kept) - {hash}
  {
    var hash, rest := files[key].sha1, kept - {key};
    assert kept[key].sha1 == hash && files[key].sha1 == hash;
    forall h | h != hash && IsNamed(kept, h) ensures IsNamed(rest, h) {
      var id :| id in kept && kept[id].sha1 == h;
      assert rest[id].sha1 == h;
    }
    forall h | IsNamed(rest, h) ensures IsNamed(kept, h) {
      var id :| id in rest && rest[id].sha1 == h;
      assert kept[id].sha1 == h;
    }
  }

  lemma FewerKeys(a: Rows, b: Rows)
    requires a.Keys < b.Keys
    ensures |a| < |b|
  {
    assert b.Keys - a.Keys != {};
    assert b.Keys == a.Keys + (b.Keys - a.Keys);
    assert |b| == |b.Keys| && |a| == |a.Keys|;
  }

  /** The table during a pass: everything still to be visited and what was kept. */
  function MidPass(s: Store, todo: set<FileId>, now: int): Rows {
    map id | id in s.files && (id in todo || Keeps(s, s.files[id], now)) :: s.files[id]
  }

  function MidPassSources(s: Store, todo: set<FileId>, now: int): Sources {
    KeptSources(s.sources, s.files, MidPass(s, todo, now))
  }

  lemma MidPassSub(s: Store, todo: set<FileId>, now: int, key: FileId)
    requires key in todo && todo <= s.files.Keys
    ensures key in MidPass(s, todo, now)
    ensures forall id :: id in MidPass(s, todo, now) ==> id in s.files && MidPass(s, todo, now)[id] == s.files[id]
    ensures MidPass(s, todo - {key}, now) ==
            if Keeps(s, s.files[key], now) then MidPass(s, todo, now) else MidPass(s, todo, now) - {key}
  {
  }

  /** Visiting one entry of the snapshot. */
  lemma MidPassStep(s: Store, todo: set<FileId>, now: int, key: FileId)
    requires key in todo && todo <= s.files.Keys
    ensures var file, files, sources := s.files[key], MidPass(s, todo, now), MidPassSources(s, todo, now);
            && (file.sha1 in sources <==> file.sha1 in s.sources)
            && MidPass(s, todo - {key}, now) == (if Keeps(s, file, now) then files else files - {key})
            && MidPassSources(s, todo - {key}, now) ==
               if Keeps(s, file, now) || IsNamed(files - {key}, file.sha1) then sources else sources - {file.sha1}
  {
    MidPassSub(s, todo, now, key);
    KeptSourcesStep(s.sources, s.files, MidPass(s, todo, now), key);
  }

  lemma MidPassEnds(s: Store, now: int)
    ensures MidPass(s, s.files.Keys, now) == s.files
    ensures MidPass(s, {}, now) == KeptFiles(s, now)
    ensures KeptSources(s.sources, s.files, s.files) == s.sources
  {
  }
}
