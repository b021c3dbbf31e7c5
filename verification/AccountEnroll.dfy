/**
 Enrolling and activating accounts as one crash-safe transaction
 (packages/daemon/src/account-enroll-service.ts, `accounts.enrollActivate`): the
 client of the account transaction and of the generation manager.
 */
module AccountEnroll {
  import opened Wrappers
  import opened AccountTransaction
  import opened DaemonGenerations

  /** A prepared account: where its credential file lives and what it will hold. */
  datatype Entry = Entry(path: Path, content: Content)

  datatype Outcome =
    | Unchanged        // nothing to do
    | PrepareFailed    // preparing threw, or the hook right behind it
    | Enrolled
    | UndoneAll        // the activation failed and everything was undone
    | UndoFailed       // the activation failed and the undoing was incomplete
    | Died             // a step threw where failures are not caught; nothing was undone
    | DiedCommitting   // so did the commit stage of the replacement, which had switched the views

  function WithCredentials(files: Files, entries: seq<Entry>): Files
    decreases |entries|
  {
    if entries == [] then files
    else WithCredentials(files, entries[..|entries| - 1])[entries[|entries| - 1].path := CredentialFile(entries[|entries| - 1])]
  }

  function CredentialFile(entry: Entry): File {
    File(entry.content, DEFAULT_MODE)
  }

  predicate Contains(files: Files, entry: Entry) {
    entry.path in files && files[entry.path].content == entry.content
  }

  /** Recovery succeeds and brings back `base`, except for the files at `slack`. */
  ghost predicate RecoversNear(d: DiskState, home: Path, base: Files, slack: set<Path>) {
    var r := Recover(d, home);
    r.ok && r.disk.txns == map[] && SameOutside(r.disk.files, base, slack)
  }

  /** The commit is durable: recovery leaves the files alone, and they are the new ones. */
  ghost predicate Committed(d: DiskState, newFiles: Files, slack: set<Path>) {
    Quiet(d) && SameOutside(d.files, newFiles, slack)
  }

  /** All old or all new, wherever a crash falls in `from..to`. */
  ghost predicate AllOldOrAllNew(history: seq<DiskState>, from: nat, to: nat, home: Path, base: Files,
                                 oldSlack: set<Path>,
                                 newFiles: Files, newSlack: set<Path>) {
    forall i | from <= i < to && i < |history| ::
      RecoversNear(history[i], home, base, oldSlack) || Committed(history[i], newFiles, newSlack)
  }

  /** What `AllOldOrAllNew` means for a crash: recovery ends with all the old files or with all the new ones. */
  lemma CrashThenRecover(history: seq<DiskState>, from: nat, late: nat, crash: nat, home: Path, base: Files,
                         oldSlack: set<Path>,
                         newFiles: Files, newSlack: set<Path>)
    requires AllOldOrAllNew(history, from, late, home, base, oldSlack, newFiles, newSlack)
    requires from <= crash < late && crash < |history|
    ensures var r := Recover(history[crash], home);
            && r.ok && r.disk.txns == map[]
            && (SameOutside(r.disk.files, base, oldSlack) || SameOutside(r.disk.files, newFiles, newSlack))
  {
    if Committed(history[crash], newFiles, newSlack) {
      QuietRecovers(history[crash], home);
    }
  }

  /** The transaction can still take the disk back to `base`, whatever its marker says. */
  ghost predicate Restores(d: DiskState, t: Transaction, home: Path, base: Files, slack: set<Path>) {
    && t.directory in d.txns
    && (forall k | k in d.txns && k != t.directory :: Harmless(d.txns[k]))
    && Intact(d.txns[t.directory], t.manifest, home, base)
    && (forall p | !Covers(t.manifest, home, p) && p !in slack :: SameAt(d.files, base, p))
    && (forall p | p in slack :: !Covers(t.manifest, home, p))
  }

  ghost predicate Pending(d: DiskState, t: Transaction) {
    t.directory in d.txns && d.txns[t.directory].manifest == Stored(t.manifest) && t.manifest.state == Prepared
  }

  /** `base` with the files at `slack` taken from `files`. */
  ghost function Patch(base: Files, files: Files, slack: set<Path>): Files {
    map p | p in base.Keys + files.Keys && (if p in slack then p in files else p in base) ::
      if p in slack then files[p] else base[p]
  }

  lemma PendingRecovers(d: DiskState, t: Transaction, home: Path, base: Files, slack: set<Path>)
    requires Restores(d, t, home, base, slack) && Pending(d, t)
    ensures RecoversNear(d, home, base, slack)
  {
    var patched := Patch(base, d.files, slack);
    forall i | 0 <= i < |t.manifest.files| ensures RestoresTo(d.txns[t.directory], t.manifest, home, patched, t.manifest.files[i]) {
      assert RestoresTo(d.txns[t.directory], t.manifest, home, base, t.manifest.files[i]);
      var w := RestoreWrite(d.txns[t.directory], t.manifest, home, t.manifest.files[i]).value;
      assert TargetPath(t.manifest.files[i], home, t.manifest) == Ok(w.path);
      assert Covers(t.manifest, home, w.path);
      assert w.path !in slack;
    }
    ArmedRecovers(d, t.directory, t.manifest, home, patched);
  }

  lemma QuietNear(d: DiskState, home: Path, base: Files, slack: set<Path>)
    requires Quiet(d) && SameOutside(d.files, base, slack)
    ensures RecoversNear(d, home, base, slack)
  {
    QuietRecovers(d, home);
  }

  /** Restoring touches covered files only, so it never loses the way back. */
  lemma RestoringRestores(start: DiskState, d: DiskState, t: Transaction, home: Path, base: Files, slack: set<Path>)
    requires Restores(start, t, home, base, slack)
    requires PartlyRestored(d, start, WritesOf(start, t, home))
    ensures Restores(d, t, home, base, slack)
  {
    var writes := WritesOf(start, t, home);
    IntactWrites(start.txns[t.directory], t.manifest, home, base);
    var k: nat :| RestoredUpTo(d, start, writes, k);
    forall p | !Covers(t.manifest, home, p) && p !in slack ensures SameAt(d.files, base, p) {
      TouchesCovered(start, t, home, k, p);
      ApplyAllFrame(start.files, writes[..k], p);
    }
  }

  lemma TouchesCovered(start: DiskState, t: Transaction, home: Path, k: nat, p: Path)
    requires t.directory in start.txns && k <= |WritesOf(start, t, home)|
    requires Restorable(start, t, home)
    ensures Touches(WritesOf(start, t, home)[..k], p) ==> Covers(t.manifest, home, p)
  {
    var writes := WritesOf(start, t, home);
    if Touches(writes[..k], p) {
      var i :| 0 <= i < k && writes[..k][i].path == p;
      assert RestoreWrite(start.txns[t.directory], t.manifest, home, t.manifest.files[i]) == Ok(writes[i]);
      assert TargetPath(t.manifest.files[i], home, t.manifest) == Ok(p);
    }
  }

  /** A complete restore brings every covered file back. */
  lemma RestoredIsBase(start: DiskState, t: Transaction, home: Path, base: Files, slack: set<Path>)
    requires Restores(start, t, home, base, slack)
    ensures SameOutside(Restored(start, t, home).files, base, slack)
    ensures Quiet(Without(Restored(start, t, home), t.directory))
  {
    var writes := WritesOf(start, t, home);
    IntactWrites(start.txns[t.directory], t.manifest, home, base);
    forall p | p !in slack ensures SameAt(ApplyAll(start.files, writes), base, p) {
      if Covers(t.manifest, home, p) {
        var i :| 0 <= i < |t.manifest.files| && TargetPath(t.manifest.files[i], home, t.manifest) == Ok(p);
        assert writes[i].path == p;
      }
      WritesReach(start.files, writes, base, p);
    }
  }

  // ---- The boundary: crashes while undoing behind a durable marker ----

  /** Every state from `from` on is all old or all new. */
  ghost predicate EachOldOrNew(history: seq<DiskState>, from: nat, base: Files, newFiles: Files, slack: set<Path>) {
    forall i | from <= i < |history| ::
      SameOutside(history[i].files, base, slack) || SameOutside(history[i].files, newFiles, slack)
  }

  /** No undoing write has taken effect. */
  ghost predicate Unmoved(history: seq<DiskState>, from: nat, newFiles: Files, slack: set<Path>) {
    forall i | from <= i < |history| :: SameOutside(history[i].files, newFiles, slack)
  }

  ghost predicate AtMostOneDiffers(a: Files, b: Files, slack: set<Path>) {
    exists q :: SameOutside(a, b, slack + {q})
  }

  /**
   Exactly when every crash behind a durable marker is all or nothing, although
   undoing has begun: the undoing changed nothing, or the old and the new files
   differ at one path at most and undoing wrote nothing else.
   */
  lemma LateCrash(history: seq<DiskState>, late: nat, base: Files, newFiles: Files, slack: set<Path>)
    requires 0 < late <= |history| && OneFileSteps(history)
    requires SameOutside(history[late - 1].files, newFiles, slack)
    ensures EachOldOrNew(history, late, base, newFiles, slack) <==>
            || Unmoved(history, late, newFiles, slack)
            || (AtMostOneDiffers(base, newFiles, slack) && Blends(history, late, base, newFiles, slack))
  {
    if EachOldOrNew(history, late, base, newFiles, slack) && !Unmoved(history, late, newFiles, slack) {
      FirstMove(history, late, base, newFiles, slack);
      forall i | late <= i < |history| ensures Blend(history[i].files, base, newFiles, slack) {}
    }
    if AtMostOneDiffers(base, newFiles, slack) && Blends(history, late, base, newFiles, slack) {
      var q :| SameOutside(base, newFiles, slack + {q});
      forall i | late <= i < |history|
        ensures SameOutside(history[i].files, base, slack) || SameOutside(history[i].files, newFiles, slack)
      {
        BlendOfTwo(history[i].files, base, newFiles, slack, q);
      }
    }
  }

  lemma BlendOfTwo(files: Files, a: Files, b: Files, slack: set<Path>, q: Path)
    requires SameOutside(a, b, slack + {q}) && Blend(files, a, b, slack)
    ensures SameOutside(files, a, slack) || SameOutside(files, b, slack)
  {
    if q in slack || SameAt(files, a, q) {
      forall p | p !in slack ensures SameAt(files, a, p) {
        assert p == q || SameAt(a, b, p);
      }
    } else {
      forall p | p !in slack ensures SameAt(files, b, p) {
        assert p == q || SameAt(a, b, p);
      }
    }
  }

  /** The first effective undoing write takes all new files to all old ones, so it is the only difference. */
  lemma {:induction false} FirstMove(history: seq<DiskState>, late: nat, base: Files, newFiles: Files, slack: set<Path>)
    requires 0 < late <= |history| && OneFileSteps(history)
    requires SameOutside(history[late - 1].files, newFiles, slack)
    requires EachOldOrNew(history, late, base, newFiles, slack) && !Unmoved(history, late, newFiles, slack)
    ensures AtMostOneDiffers(base, newFiles, slack)
    decreases |history| - late
  {
    var before, after := history[late - 1].files, history[late].files;
    if SameOutside(after, newFiles, slack) {
      FirstMove(history, late + 1, base, newFiles, slack);
    } else {
      assert OneFile(before, after);
      var q :| SameOutside(before, after, {q});
      forall p | p !in slack + {q} ensures SameAt(base, newFiles, p) {
        assert SameAt(before, after, p) && SameAt(after, base, p) && SameAt(before, newFiles, p);
      }
      assert SameOutside(base, newFiles, slack + {q});
    }
  }

  /** The files on disk are exactly those that the daemon would write back. */
  ghost predicate Steady(daemon: Daemon)
    reads daemon, daemon.disk
  {
    SteadyFiles(daemon.disk.files, daemon.home, daemon.configPath, daemon.document, daemon.revisions)
  }

  ghost predicate SteadyFiles(files: Files, home: Path, configPath: Path, document: string, revisions: Revisions) {
    SameOutside(NewFiles(files, home, configPath, document, revisions, true), files, {})
  }

  lemma BecomesSteady(files: Files, base: Files, home: Path, configPath: Path, authPath: Path, entries: seq<Entry>,
                      document: string, revisions: Revisions)
    requires SameOutside(files, NewFiles(WithCredentials(base, entries), home, configPath, document, revisions, true), {authPath})
    requires authPath != configPath && authPath != RevisionsPath(home)
    ensures SteadyFiles(files, home, configPath, document, revisions)
  {
    var newFiles := NewFiles(WithCredentials(base, entries), home, configPath, document, revisions, true);
    assert SameAt(files, newFiles, configPath) && SameAt(files, newFiles, RevisionsPath(home));
  }

  lemma StaysSteady(files: Files, base: Files, slack: set<Path>, home: Path, configPath: Path, document: string,
                    revisions: Revisions)
    requires SameOutside(files, base, slack) && configPath !in slack && RevisionsPath(home) !in slack
    ensures SteadyFiles(base, home, configPath, document, revisions) ==> SteadyFiles(files, home, configPath, document, revisions)
  {
    var written := NewFiles(base, home, configPath, document, revisions, true);
    assert SameAt(files, base, configPath) && SameAt(files, base, RevisionsPath(home));
    if SteadyFiles(base, home, configPath, document, revisions) {
      assert SameAt(written, base, configPath) && SameAt(written, base, RevisionsPath(home));
    }
  }

  /** Every file outside `slack` is old, new, or the one that undoing the replacement writes. */
  ghost predicate Mixes(files: Files, base: Files, newFiles: Files, undone: Files, slack: set<Path>) {
    forall p | p !in slack :: SameAt(files, base, p) || SameAt(files, newFiles, p) || SameAt(files, undone, p)
  }

  /** A crash from `from` on finds a quiet disk, which recovery leaves alone, and a mix. */
  ghost predicate QuietMixes(history: seq<DiskState>, from: nat, base: Files, newFiles: Files, undone: Files,
                             slack: set<Path>) {
    forall i | from <= i < |history| :: Quiet(history[i]) && Mixes(history[i].files, base, newFiles, undone, slack)
  }

  lemma CredentialsFrame(files: Files, entries: seq<Entry>, p: Path)
    requires forall e | e in entries :: e.path != p
    ensures SameAt(WithCredentials(files, entries), files, p)
    decreases |entries|
  {
    if entries != [] {
      CredentialsFrame(files, entries[..|entries| - 1], p);
    }
  }

  /** On a steady disk, undoing writes old files only. */
  lemma SteadyBlends(history: seq<DiskState>, from: nat, base: Files, home: Path, configPath: Path, slack: set<Path>,
                     entries: seq<Entry>, text: string, next: Revisions, document: string, revisions: Revisions)
    requires SteadyFiles(base, home, configPath, document, revisions)
    requires forall e | e in entries :: e.path != configPath && e.path != RevisionsPath(home)
    requires QuietMixes(history, from, base, NewFiles(WithCredentials(base, entries), home, configPath, text, next, true),
                        NewFiles(WithCredentials(base, entries), home, configPath, document, revisions, true), slack)
    ensures Blends(history, from, base, NewFiles(WithCredentials(base, entries), home, configPath, text, next, true), slack)
  {
    var files := WithCredentials(base, entries);
    var newFiles, undone := NewFiles(files, home, configPath, text, next, true), NewFiles(files, home, configPath, document, revisions, true);
    var written := NewFiles(base, home, configPath, document, revisions, true);
    forall p ensures SameAt(undone, base, p) || SameAt(undone, newFiles, p) {
      if p == configPath || p == RevisionsPath(home) { assert SameAt(written, base, p); }
    }
    forall i, p | from <= i < |history| && p !in slack
      ensures SameAt(history[i].files, base, p) || SameAt(history[i].files, newFiles, p)
    {
      assert SameAt(undone, base, p) || SameAt(undone, newFiles, p);
      assert Mixes(history[i].files, base, newFiles, undone, slack);
    }
  }

  /**
   What a caller can check before the call: on a steady disk at most one path
   differs exactly if the credentials and the config are on disk already. The
   revisions always differ.
   */
  lemma OnlyRevisionsDiffer(base: Files, home: Path, configPath: Path, authPath: Path, entries: seq<Entry>, text: string,
                            document: string, revisions: Revisions)
    requires SteadyFiles(base, home, configPath, document, revisions)
    requires configPath != RevisionsPath(home) && authPath != RevisionsPath(home) && authPath != configPath
    requires forall e | e in entries :: e.path !in {configPath, RevisionsPath(home), authPath}
    ensures var next := NextRevisions(revisions, Mutation(true, true, true, NoPersist));
            AtMostOneDiffers(base, NewFiles(WithCredentials(base, entries), home, configPath, text, next, true), {authPath})
            <==> text == document && WithCredentials(base, entries) == base
  {
    var next := NextRevisions(revisions, Mutation(true, true, true, NoPersist));
    var files := WithCredentials(base, entries);
    var newFiles := NewFiles(files, home, configPath, text, next, true);
    var written := NewFiles(base, home, configPath, document, revisions, true);
    assert SameAt(written, base, configPath) && SameAt(written, base, RevisionsPath(home));
    if q :| SameOutside(base, newFiles, {authPath} + {q}) {
      assert q == RevisionsPath(home) by {
        assert !SameAt(base, newFiles, RevisionsPath(home));
      }
      assert SameAt(base, newFiles, configPath);
      forall p ensures SameAt(files, base, p) {
        if p in {configPath, RevisionsPath(home), authPath} {
          CredentialsFrame(base, entries, p);
        } else {
          assert SameAt(base, newFiles, p);
        }
      }
      SameEverywhere(files, base);
    }
    if text == document && files == base {
      assert SameOutside(base, newFiles, {authPath} + {RevisionsPath(home)});
    }
  }

  /** The smallest example: config and revisions, both old in the backups, both new on disk, the marker set. */
  function ExampleFile(text: string): File {
    File(Text(text), DEFAULT_MODE)
  }

  function ExampleManifest(): Manifest {
    var digest := Some(Sha256(Text("old")));
    Manifest(Phase.Committed, ["config"],
             [TransactionFile(ConfigRole, None, None, true, Some(0), digest, Some(DEFAULT_MODE)),
              TransactionFile(RevisionsRole, None, None, true, Some(0), digest, Some(DEFAULT_MODE))])
  }

  function ExampleFiles(text: string): Files {
    map[["config"] := ExampleFile(text), RevisionsPath([]) := ExampleFile(text)]
  }

  function ExampleDisk(config: string, revisions: string): DiskState {
    DiskState(map[["config"] := ExampleFile(config), RevisionsPath([]) := ExampleFile(revisions)],
              map[0 := Directory(map[0 := Text("old")], Stored(ExampleManifest()))])
  }

  /** A crash after the first restoring write leaves a disk that recovery makes neither old nor new. */
  lemma MixedAfterLateCrash()
    ensures var start := ExampleDisk("new", "new");
            var t := Transaction(0, ExampleManifest());
            && Quiet(start) && Intact(start.txns[0], ExampleManifest(), [], ExampleFiles("old"))
            && PartlyRestored(ExampleDisk("old", "new"), start, WritesOf(start, t, []))
            && var recovered := Recover(ExampleDisk("old", "new"), []).disk.files;
               recovered != ExampleFiles("old") && recovered != ExampleFiles("new")
  {
    var start, crashed := ExampleDisk("new", "new"), ExampleDisk("old", "new");
    var t := Transaction(0, ExampleManifest());
    var files := ExampleManifest().files;
    assert "old"[0] != "new"[0];
    assert RevisionsPath([])[0] != ["config"][0] by {
      assert RevisionsPath([])[0] == "daemon-revisions.json" && "daemon-revisions.json"[0] != "config"[0];
    }
    assert start.files[["config"]] == ExampleFile("new") && crashed.files[["config"]] == ExampleFile("old");
    forall i | 0 <= i < |files| ensures RestoresTo(start.txns[0], ExampleManifest(), [], ExampleFiles("old"), files[i]) {
      assert i == 0 || i == 1;
    }
    IntactWrites(start.txns[0], ExampleManifest(), [], ExampleFiles("old"));
    var writes := WritesOf(start, t, []);
    assert writes[..1] == [Write(["config"], Some(ExampleFile("old")))];
    assert ApplyAll(start.files, writes[..1]) == start.files[["config"] := ExampleFile("old")];
    assert crashed.files == start.files[["config"] := ExampleFile("old")];
    assert RestoredUpTo(crashed, start, writes, 1);
    QuietRecovers(crashed, []);
  }

  // ---- Enrolling ----

  method Hook() returns (ok: bool) {
    ok := *;
  }

  /** The credential files, one atomic write each; all of them covered by the transaction. */
  method WriteCredentials(disk: Disk, entries: seq<Entry>, ghost t: Transaction, home: Path, ghost base: Files,
                          ghost slack: set<Path>)
    returns (ok: bool)
    requires Restores(disk.State(), t, home, base, slack) && Pending(disk.State(), t)
    requires forall e | e in entries :: Covers(t.manifest, home, e.path)
    modifies disk
    ensures old(disk.history) <= disk.history && disk.txns == old(disk.txns)
    ensures old(disk.Traced()) ==> disk.Traced()
    ensures Restores(disk.State(), t, home, base, slack)
    ensures forall i | |old(disk.history)| <= i < |disk.history| :: RecoversNear(disk.history[i], home, base, slack)
    ensures ok ==> disk.files == WithCredentials(old(disk.files), entries)
  {
    hide RecoversNear;
    assert entries[..0] == [];
    for i := 0 to |entries|
      invariant old(disk.history) <= disk.history && disk.txns == old(disk.txns)
      invariant old(disk.Traced()) ==> disk.Traced()
      invariant Restores(disk.State(), t, home, base, slack)
      invariant forall i | |old(disk.history)| <= i < |disk.history| :: RecoversNear(disk.history[i], home, base, slack)
      invariant disk.files == WithCredentials(old(disk.files), entries[..i])
    {
      assert entries[..i + 1][..i] == entries[..i];
      ok := disk.WriteFile(entries[i].path, CredentialFile(entries[i]));
      PendingRecovers(disk.State(), t, home, base, slack);
      if !ok {
        return;
      }
    }
    assert entries[..|entries|] == entries;
    ok := Hook();
  }

  /** Behind a marker that is durable, restoring passes through blends of what it found and the old files. */
  lemma RestoringBlends(start: DiskState, d: DiskState, t: Transaction, home: Path, base: Files, slack: set<Path>)
    requires Restores(start, t, home, base, slack) && Quiet(start)
    requires PartlyRestored(d, start, WritesOf(start, t, home)) || d == Without(Restored(start, t, home), t.directory)
    ensures Quiet(d) && Blend(d.files, start.files, base, {})
  {
    var writes := WritesOf(start, t, home);
    assert writes[..|writes|] == writes;
    var k: nat :| k <= |writes| && d.files == ApplyAll(start.files, writes[..k]);
    IntactWrites(start.txns[t.directory], t.manifest, home, base);
    forall p ensures SameAt(d.files, start.files, p) || SameAt(d.files, base, p) {
      if Touches(writes[..k], p) { WritesReach(start.files, writes[..k], base, p); }
      else { ApplyAllFrame(start.files, writes[..k], p); }
    }
  }

  /** Rolls the transaction back; unless the marker is durable, every state on the way recovers to `base`. */
  method UndoTransaction(disk: Disk, t: Transaction, home: Path, ghost base: Files, ghost slack: set<Path>)
    returns (ok: bool)
    requires Restores(disk.State(), t, home, base, slack)
    modifies disk
    ensures old(disk.history) <= disk.history
    ensures old(disk.Traced()) ==> disk.Traced()
    ensures ok ==> Quiet(disk.State()) && SameOutside(disk.files, base, slack)
    ensures Quiet(old(disk.State())) ==>
              forall i | |old(disk.history)| <= i < |disk.history| ::
                Quiet(disk.history[i]) && Blend(disk.history[i].files, old(disk.files), base, {})
    ensures Pending(old(disk.State()), t) ==>
              forall i | |old(disk.history)| <= i < |disk.history| :: RecoversNear(disk.history[i], home, base, slack)
  {
    ghost var start := disk.State();
    ok := Rollback(disk, t, home);
    RestoredIsBase(start, t, home, base, slack);
    if Quiet(start) {
      forall i | |old(disk.history)| <= i < |disk.history|
        ensures Quiet(disk.history[i]) && Blend(disk.history[i].files, start.files, base, {})
      {
        RestoringBlends(start, disk.history[i], t, home, base, slack);
      }
    }
    if Pending(start, t) {
      forall i | |old(disk.history)| <= i < |disk.history| ensures RecoversNear(disk.history[i], home, base, slack) {
        if PartlyRestored(disk.history[i], start, WritesOf(start, t, home)) {
          RestoringRestores(start, disk.history[i], t, home, base, slack);
          PendingRecovers(disk.history[i], t, home, base, slack);
        } else {
          QuietNear(disk.history[i], home, base, slack);
        }
      }
    }
  }

  /** Changing covered files or setting the marker keeps the way back; the marker makes the disk quiet. */
  lemma StillRestores(before: DiskState, after: DiskState, t: Transaction, native: bool, accounts: nat, home: Path,
                      base: Files, slack: set<Path>, touched: set<Path>)
    requires Restores(before, t, home, base, slack) && Pending(before, t)
    requires SameOutside(after.files, before.files, touched)
    requires forall p | p in touched :: Covers(t.manifest, home, p) || p in slack
    requires after.txns == before.txns || after.txns == Marked(before.txns, Activation(t, native, accounts))
    ensures Restores(after, t, home, base, slack)
    ensures after.txns == before.txns ==> Pending(after, t)
    ensures after.txns == Marked(before.txns, Activation(t, native, accounts)) ==> Quiet(after)
  {
    forall i | 0 <= i < |t.manifest.files| ensures RestoresTo(after.txns[t.directory], t.manifest, home, base, t.manifest.files[i]) {
      assert RestoresTo(before.txns[t.directory], t.manifest, home, base, t.manifest.files[i]);
    }
    forall p | !Covers(t.manifest, home, p) && p !in slack ensures SameAt(after.files, base, p) {
      assert SameAt(after.files, before.files, p);
    }
  }

  /** The states of the replacement: pending until the marker, committed to the new files until `late`. */
  lemma ReplacementIsAtomic(history: seq<DiskState>, c: Course, marked: nat, late: nat, before: DiskState,
                            t: Transaction,
                            native: bool, accounts: nat, home: Path, base: Files, slack: set<Path>)
    requires Follows(history, c, marked, late)
    requires Restores(before, t, home, base, slack) && Pending(before, t)
    requires c.txns == before.txns && c.files == before.files
    requires c.markedTxns == Marked(before.txns, Activation(t, native, accounts))
    requires forall p | p in c.owned :: Covers(t.manifest, home, p) || p in slack
    requires SameOutside(c.newFiles, c.files, c.owned) && c.authPath in c.owned
    ensures AllOldOrAllNew(history, c.start, late, home, base, slack, c.newFiles, {c.authPath})
    ensures BehindMarker(history, marked, late, c.newFiles, c.undoneFiles, {c.authPath})
  {
    if marked < |history| {
      forall i | late <= i < |history| ensures Quiet(history[i]) {
        StillRestores(before, history[i], t, native, accounts, home, base, slack, c.owned);
      }
      SameVia(history[late - 1].files, c.newFiles, before.files, {c.authPath}, c.owned);
      StillRestores(before, history[late - 1], t, native, accounts, home, base, slack, c.owned);
    }
    forall i | c.start <= i < late
      ensures RecoversNear(history[i], home, base, slack) || Committed(history[i], c.newFiles, {c.authPath})
    {
      if i < marked {
        StillRestores(before, history[i], t, native, accounts, home, base, slack, c.owned);
        PendingRecovers(history[i], t, home, base, slack);
      } else {
        SameVia(history[i].files, c.newFiles, before.files, {c.authPath}, c.owned);
        StillRestores(before, history[i], t, native, accounts, home, base, slack, c.owned);
      }
    }
  }

  /** What an enrollment may change on disk besides the account and config files it declares. */
  function Slack(native: bool, authPath: Path): set<Path> {
    if native then {} else {authPath}
  }

  ghost function FilesAfter(daemon: Daemon, entries: seq<Entry>, next: RouterConfig): Files
    reads daemon, daemon.disk
  {
    NewFiles(WithCredentials(daemon.disk.files, entries), daemon.home, daemon.configPath, next.rendered,
             NextRevisions(daemon.revisions, Mutation(true, true, true, NoPersist)), true)
  }

  /** The new credentials with the config and revisions that undoing the replacement writes. */
  ghost function FilesUndone(daemon: Daemon, entries: seq<Entry>): Files
    reads daemon, daemon.disk
  {
    NewFiles(WithCredentials(daemon.disk.files, entries), daemon.home, daemon.configPath, daemon.document, daemon.revisions, true)
  }

  /** Once the marker is durable the files are all new until `late`, and from there on blends of new and undone files. */
  ghost predicate BehindMarker(history: seq<DiskState>, marked: nat, late: nat, newFiles: Files, undone: Files,
                               slack: set<Path>) {
    marked < |history| ==>
      && marked < late <= |history|
      && SameOutside(history[late - 1].files, newFiles, slack)
      && (forall i | late <= i < |history| :: Quiet(history[i]) && Blend(history[i].files, newFiles, undone, slack))
      && Quiet(history[|history| - 1]) && Blend(history[|history| - 1].files, newFiles, undone, slack)
  }

  function Paths(entries: seq<Entry>): (paths: seq<Path>)
    ensures |paths| == |entries| && forall i | 0 <= i < |entries| :: paths[i] == entries[i].path
  {
    seq(|entries|, i requires 0 <= i < |entries| => entries[i].path)
  }

  /** Prepares the transaction and runs the hook behind it; nothing but the prepare record is written. */
  method Begin(daemon: Daemon, entries: seq<Entry>, accountRoots: seq<Path>, native: bool)
    returns (r: Result<Transaction>)
    requires daemon.Valid() && Quiet(daemon.disk.State())
    requires forall e | e in entries :: e.path !in daemon.Owned()
    modifies daemon.disk
    ensures var disk := daemon.disk;
            var slack := Slack(native, daemon.authPath);
            && old(disk.history) <= disk.history && disk.files == old(disk.files)
            && (old(disk.Traced()) ==> disk.Traced())
            && (forall i | |old(disk.history)| <= i < |disk.history| :: RecoversNear(disk.history[i], daemon.home, disk.files, slack))
            && (r.Ok? ==>
                  && Restores(disk.State(), r.value, daemon.home, disk.files, slack)
                  && Pending(disk.State(), r.value)
                  && (forall e | e in entries :: Covers(r.value.manifest, daemon.home, e.path))
                  && (forall p | p in daemon.Owned() :: Covers(r.value.manifest, daemon.home, p) || p in slack))
  {
    hide Recover, Intact;
    var paths := Paths(entries) + if native then [daemon.authPath] else [];
    r := Prepare(daemon.disk, daemon.home, daemon.configPath, paths, accountRoots);
    assert forall e | e in entries :: e.path in paths by {
      forall e | e in entries ensures e.path in paths {
        var i :| 0 <= i < |entries| && entries[i] == e;
        assert paths[i] == e.path;
      }
    }
    var hook := Hook();
    if r.Ok? && !hook {
      r := Err("account transaction was abandoned after its prepare record");
    }
  }

  /** The replacement of an enrollment: persists config, revisions and activation, then sets the marker. */
  method ReplaceMarked(daemon: Daemon, t: Transaction, native: bool, accounts: nat, next: RouterConfig,
                       nextDocument: string, ghost base: Files)
    returns (r: Ending, switched: bool, ghost marked: nat, ghost late: nat)
    requires daemon.Valid() && daemon.disk.Traced()
    requires Restores(daemon.disk.State(), t, daemon.home, base, Slack(native, daemon.authPath)) && Pending(daemon.disk.State(), t)
    requires forall p | p in daemon.Owned() :: Covers(t.manifest, daemon.home, p) || p in Slack(native, daemon.authPath)
    modifies daemon, daemon.disk
    ensures daemon.Valid() && daemon.disk.Traced()
    ensures old(daemon.disk.history) <= daemon.disk.history
    ensures |old(daemon.disk.history)| <= marked <= late <= |daemon.disk.history|
    ensures marked < |daemon.disk.history| ==> marked < late
    ensures AllOldOrAllNew(daemon.disk.history, |old(daemon.disk.history)|, late, daemon.home, base, Slack(native, daemon.authPath),
                           old(FilesAfter(daemon, [], next)), {daemon.authPath})
    ensures BehindMarker(daemon.disk.history, marked, late, old(FilesAfter(daemon, [], next)), old(FilesUndone(daemon, [])), {daemon.authPath})
    ensures !r.Fails? ==> late == |daemon.disk.history|
    ensures r.Dies? && marked < |daemon.disk.history| ==>
              Committed(daemon.disk.State(), old(FilesAfter(daemon, [], next)), {daemon.authPath})
    ensures !r.Dies? ==> switched == r.Succeeds?
    ensures r.Succeeds? ==> daemon.Published()
    ensures r.Dies? && switched ==> !daemon.Published() && daemon.target == old(daemon.target)
    ensures switched ==>
              && marked < late
              && Committed(daemon.disk.State(), old(FilesAfter(daemon, [], next)), {daemon.authPath})
              && daemon.config == next && daemon.document == next.rendered
              && daemon.revisions == NextRevisions(old(daemon.revisions), Mutation(true, true, true, NoPersist))
              && daemon.Durable()
    ensures !switched <==> daemon.Views() == old(daemon.Views())
    ensures Restores(daemon.disk.State(), t, daemon.home, base, Slack(native, daemon.authPath))
    ensures if marked == |daemon.disk.history| then Pending(daemon.disk.State(), t) else Quiet(daemon.disk.State())
  {
    hide Recover, Intact, RecoversNear, Blend, OneFileSteps;
    var mutation := Mutation(true, true, true, Activation(t, native, accounts));
    ghost var before, course := daemon.disk.State(), daemon.CourseOf(next, mutation);
    assert course.newFiles == FilesAfter(daemon, [], next) && course.undoneFiles == FilesUndone(daemon, []);
    NewFilesConfined(before.files, daemon.home, daemon.configPath, next.rendered, NextRevisions(daemon.revisions, mutation), true, daemon.Owned());
    var outcome;
    outcome, marked, late := daemon.Replace(next, nextDocument, mutation);
    ReplacementIsAtomic(daemon.disk.history, course, marked, late, before, t, native, accounts, daemon.home, base, Slack(native, daemon.authPath));
    StillRestores(before, daemon.disk.State(), t, native, accounts, daemon.home, base, Slack(native, daemon.authPath), daemon.Owned());
    r := if outcome == Replaced then Succeeds else if outcome.Died? || outcome.DiedCommitting? then Dies else Fails;
    switched := Switches(outcome);
  }

  /**
   The transaction proper: credentials, then the replacement that persists and
   marks, then cleanup. What fails, fails before the router is swapped.
   */
  method Activate(daemon: Daemon, t: Transaction, entries: seq<Entry>, native: bool, next: RouterConfig,
                  nextDocument: string,
                  ghost base: Files)
    returns (r: Ending, swapped: bool, switched: bool, ghost marked: nat, ghost late: nat)
    requires daemon.Valid() && daemon.disk.Traced()
    requires Restores(daemon.disk.State(), t, daemon.home, base, Slack(native, daemon.authPath)) && Pending(daemon.disk.State(), t)
    requires forall e | e in entries :: Covers(t.manifest, daemon.home, e.path)
    requires forall p | p in daemon.Owned() :: Covers(t.manifest, daemon.home, p) || p in Slack(native, daemon.authPath)
    modifies daemon, daemon.disk
    ensures daemon.Valid() && daemon.disk.Traced()
    ensures old(daemon.disk.history) <= daemon.disk.history
    ensures |old(daemon.disk.history)| <= marked <= late <= |daemon.disk.history|
    ensures marked < |daemon.disk.history| ==> marked < late
    ensures AllOldOrAllNew(daemon.disk.history, |old(daemon.disk.history)|, late, daemon.home, base, Slack(native, daemon.authPath),
                           old(FilesAfter(daemon, entries, next)), {daemon.authPath})
    ensures !r.Fails? ==> late == |daemon.disk.history|
    ensures r.Dies? && marked < |daemon.disk.history| ==>
              Committed(daemon.disk.State(), old(FilesAfter(daemon, entries, next)), {daemon.authPath})
    ensures r.Succeeds? ==> swapped
    ensures swapped ==> switched && daemon.Published()
    ensures switched && !swapped ==> r.Dies? && !daemon.Published() && daemon.target == old(daemon.target)
    ensures switched ==>
              && marked < late && !r.Fails?
              && Committed(daemon.disk.State(), old(FilesAfter(daemon, entries, next)), {daemon.authPath})
              && daemon.config == next && daemon.document == next.rendered
              && daemon.revisions == NextRevisions(old(daemon.revisions), Mutation(true, true, true, NoPersist))
              && daemon.Durable()
    ensures !switched <==> daemon.Views() == old(daemon.Views())
    ensures r.Fails? ==>
              && BehindMarker(daemon.disk.history, marked, late, old(FilesAfter(daemon, entries, next)), old(FilesUndone(daemon, entries)), {daemon.authPath})
              && Restores(daemon.disk.State(), t, daemon.home, base, Slack(native, daemon.authPath))
              && if marked == |daemon.disk.history| then Pending(daemon.disk.State(), t) else Quiet(daemon.disk.State())
  {
    hide Recover, Restores, RecoversNear, Covers, BehindMarker, Disk.Traced;
    var disk := daemon.disk;
    swapped, switched := false, false;
    var written := WriteCredentials(disk, entries, t, daemon.home, base, Slack(native, daemon.authPath));
    marked, late := |disk.history|, |disk.history|;
    if !written {
      NothingMarked(disk.history, old(FilesAfter(daemon, entries, next)), old(FilesUndone(daemon, entries)), {daemon.authPath});
      return Fails, swapped, switched, marked, late;
    }
    assert FilesAfter(daemon, [], next) == old(FilesAfter(daemon, entries, next));
    assert FilesUndone(daemon, []) == old(FilesUndone(daemon, entries));
    r, switched, marked, late := ReplaceMarked(daemon, t, native, |entries|, next, nextDocument, base);
    swapped := r.Succeeds?;
    if swapped {
      var hook := Hook();
      if !hook { return Dies, swapped, switched, marked, late; }
      var cleaned := Cleanup(disk, t);
      late := |disk.history|;
    }
  }

  lemma NothingMarked(history: seq<DiskState>, newFiles: Files, undone: Files, slack: set<Path>)
    ensures BehindMarker(history, |history|, |history|, newFiles, undone, slack)
  {
  }

  /** The failure handler: roll the transaction back, reload auth state, and swap the router back if it was swapped. */
  method Undo(daemon: Daemon, t: Transaction, native: bool, swapped: bool, previousConfig: RouterConfig,
              previousDocument: string,
              ghost base: Files, ghost pending: bool)
    returns (ok: bool)
    requires daemon.Valid()
    requires Restores(daemon.disk.State(), t, daemon.home, base, Slack(native, daemon.authPath))
    requires pending ==> Pending(daemon.disk.State(), t) && !swapped
    requires swapped ==> daemon.Published()
    modifies daemon, daemon.disk
    ensures daemon.Valid()
    ensures old(daemon.disk.history) <= daemon.disk.history
    ensures old(daemon.disk.Traced()) ==> daemon.disk.Traced()
    ensures pending ==> forall i | |old(daemon.disk.history)| <= i < |daemon.disk.history| ::
                          RecoversNear(daemon.disk.history[i], daemon.home, base, Slack(native, daemon.authPath))
    ensures !swapped && Quiet(old(daemon.disk.State())) ==>
              forall i | |old(daemon.disk.history)| <= i < |daemon.disk.history| ::
                Quiet(daemon.disk.history[i]) && Blend(daemon.disk.history[i].files, old(daemon.disk.files), base, {})
    ensures !swapped ==> daemon.Views() == old(daemon.Views())
    ensures ok ==> Quiet(daemon.disk.State())
    ensures ok && !swapped ==> SameOutside(daemon.disk.files, base, Slack(native, daemon.authPath))
    ensures ok && swapped ==>
              && SameOutside(daemon.disk.files, base, {RevisionsPath(daemon.home), daemon.authPath})
              && daemon.Published() && daemon.config == previousConfig && daemon.document == previousDocument
              && daemon.revisions == old(daemon.revisions)
              && (ReadDocument(base, daemon.configPath) == Some(previousDocument) ==> daemon.Durable())
  {
    hide Recover, Restores, Pending, RecoversNear, Covers, Blend, Disk.Traced;
    var disk := daemon.disk;
    ok := UndoTransaction(disk, t, daemon.home, base, Slack(native, daemon.authPath));
    if ok { ok := Hook(); }
    if !native {
      var refreshed := Hook();
      ok := ok && refreshed;
    }
    if swapped {
      ghost var restored := disk.files;
      var outcome;
      ghost var marked, late;
      outcome, marked, late := daemon.Replace(previousConfig, previousDocument, Mutation(false, false, false, NoPersist));
      if ok {
        assert SameAt(restored, base, daemon.configPath);
        ghost var kept := {RevisionsPath(daemon.home), daemon.authPath};
        ghost var swappedBack := NewFiles(restored, daemon.home, daemon.configPath, previousDocument, old(daemon.revisions), false);
        NewFilesConfined(restored, daemon.home, daemon.configPath, previousDocument, old(daemon.revisions), false, kept);
        SameVia(restored, base, base, Slack(native, daemon.authPath), kept);
        SameVia(swappedBack, restored, base, kept, kept);
        assert outcome == Replaced ==> SameOutside(disk.files, swappedBack, {daemon.authPath});
        if outcome == Replaced { SameVia(disk.files, swappedBack, base, {daemon.authPath}, kept); }
      }
      ok := ok && outcome == Replaced;
    }
  }

  /** The states of the undoing behind a durable marker: quiet, and mixes of old, new and undone files. */
  lemma UndoMixes(before: seq<DiskState>, after: seq<DiskState>, marked: nat, late: nat, base: Files, newFiles: Files,
                  undone: Files, slack: set<Path>)
    requires BehindMarker(before, marked, late, newFiles, undone, slack) && marked < |before| && before <= after
    requires forall i | |before| <= i < |after| :: Quiet(after[i]) && Blend(after[i].files, before[|before| - 1].files, base, {})
    ensures QuietMixes(after, late, base, newFiles, undone, slack)
    ensures SameOutside(after[late - 1].files, newFiles, slack)
  {
    forall i | late <= i < |after| ensures Quiet(after[i]) && Mixes(after[i].files, base, newFiles, undone, slack) {
      if i < |before| {
        assert after[i] == before[i];
        assert Blend(before[i].files, newFiles, undone, slack);
      } else {
        var last := before[|before| - 1].files;
        forall p | p !in slack
          ensures SameAt(after[i].files, base, p) || SameAt(after[i].files, newFiles, p) || SameAt(after[i].files, undone, p)
        {
          assert SameAt(after[i].files, last, p) || SameAt(after[i].files, base, p);
          assert SameAt(last, newFiles, p) || SameAt(last, undone, p);
        }
      }
    }
  }

  /** Crashes from `late` on, exactly: see `LateCrash` and `SteadyBlends`. */
  ghost predicate LateExactly(history: seq<DiskState>, late: nat, base: Files, newFiles: Files, undone: Files,
                              slack: set<Path>, steady: bool) {
    && QuietMixes(history, late, base, newFiles, undone, slack)
    && (EachOldOrNew(history, late, base, newFiles, slack) <==>
        || Unmoved(history, late, newFiles, slack)
        || (AtMostOneDiffers(base, newFiles, slack) && Blends(history, late, base, newFiles, slack)))
    && (steady ==> Blends(history, late, base, newFiles, slack))
  }

  lemma LateCrashes(history: seq<DiskState>, late: nat, base: Files, home: Path, configPath: Path, slack: set<Path>,
                    entries: seq<Entry>, text: string, next: Revisions, document: string, revisions: Revisions)
    requires 0 < late <= |history| && OneFileSteps(history)
    requires forall e | e in entries :: e.path != configPath && e.path != RevisionsPath(home)
    requires var newFiles := NewFiles(WithCredentials(base, entries), home, configPath, text, next, true);
             && QuietMixes(history, late, base, newFiles,
                           NewFiles(WithCredentials(base, entries), home, configPath, document, revisions, true), slack)
             && SameOutside(history[late - 1].files, newFiles, slack)
    ensures LateExactly(history, late, base, NewFiles(WithCredentials(base, entries), home, configPath, text, next, true),
                        NewFiles(WithCredentials(base, entries), home, configPath, document, revisions, true), slack,
                        SteadyFiles(base, home, configPath, document, revisions))
  {
    hide Quiet, OneFileSteps, EachOldOrNew, Unmoved, AtMostOneDiffers, QuietMixes, Blends, SteadyFiles, NewFiles;
    LateCrash(history, late, base, NewFiles(WithCredentials(base, entries), home, configPath, text, next, true), slack);
    if SteadyFiles(base, home, configPath, document, revisions) {
      SteadyBlends(history, late, base, home, configPath, slack, entries, text, next, document, revisions);
    }
  }

  /**
   The boundary in terms of what a caller knows before the call: on a steady disk
   the late crashes are all or nothing exactly if undoing changed nothing, or the
   credentials and the config were on disk already.
   */
  lemma WholeIffOnDisk(history: seq<DiskState>, late: nat, base: Files, home: Path, configPath: Path, authPath: Path,
                       entries: seq<Entry>, text: string, document: string, revisions: Revisions)
    requires SteadyFiles(base, home, configPath, document, revisions)
    requires configPath != RevisionsPath(home) && authPath != RevisionsPath(home) && authPath != configPath
    requires forall e | e in entries :: e.path !in {configPath, RevisionsPath(home), authPath}
    requires var next := NextRevisions(revisions, Mutation(true, true, true, NoPersist));
             LateExactly(history, late, base, NewFiles(WithCredentials(base, entries), home, configPath, text, next, true),
                         NewFiles(WithCredentials(base, entries), home, configPath, document, revisions, true), {authPath}, true)
    ensures var next := NextRevisions(revisions, Mutation(true, true, true, NoPersist));
            var newFiles := NewFiles(WithCredentials(base, entries), home, configPath, text, next, true);
            EachOldOrNew(history, late, base, newFiles, {authPath})
            <==> Unmoved(history, late, newFiles, {authPath}) || (text == document && WithCredentials(base, entries) == base)
  {
    hide QuietMixes, EachOldOrNew, Unmoved, AtMostOneDiffers, Blends, SteadyFiles;
    OnlyRevisionsDiffer(base, home, configPath, authPath, entries, text, document, revisions);
  }

  /** A credential that is not on disk makes a difference, as no two accounts share a path. */
  lemma {:induction false} CredentialsDiffer(base: Files, entries: seq<Entry>, i: nat)
    requires i < |entries| && !Contains(base, entries[i])
    requires forall j, k :: 0 <= j < k < |entries| ==> entries[j].path != entries[k].path
    ensures !SameAt(WithCredentials(base, entries), base, entries[i].path)
    decreases |entries|
  {
    var n := |entries| - 1;
    if i < n {
      CredentialsDiffer(base, entries[..n], i);
    }
  }

  /**
   The boundary for what `Enroll` goes on with: the provider is new to the config, or
   a credential is not on disk. On a steady disk the late crashes are then all or
   nothing only if undoing changed nothing. `known` says of a document whether it
   has the provider, and the new document has it.
   */
  lemma WholeIffUnmoved(history: seq<DiskState>, late: nat, base: Files, home: Path, configPath: Path, authPath: Path,
                        entries: seq<Entry>, text: string, document: string, revisions: Revisions, known: string -> bool)
    requires SteadyFiles(base, home, configPath, document, revisions)
    requires configPath != RevisionsPath(home) && authPath != RevisionsPath(home) && authPath != configPath
    requires forall e | e in entries :: e.path !in {configPath, RevisionsPath(home), authPath}
    requires forall j, k :: 0 <= j < k < |entries| ==> entries[j].path != entries[k].path
    requires known(text) && !(known(document) && forall e | e in entries :: Contains(base, e))
    requires var next := NextRevisions(revisions, Mutation(true, true, true, NoPersist));
             LateExactly(history, late, base, NewFiles(WithCredentials(base, entries), home, configPath, text, next, true),
                         NewFiles(WithCredentials(base, entries), home, configPath, document, revisions, true), {authPath}, true)
    ensures var next := NextRevisions(revisions, Mutation(true, true, true, NoPersist));
            var newFiles := NewFiles(WithCredentials(base, entries), home, configPath, text, next, true);
            EachOldOrNew(history, late, base, newFiles, {authPath}) <==> Unmoved(history, late, newFiles, {authPath})
  {
    hide LateExactly, EachOldOrNew, Unmoved, SteadyFiles, NewFiles;
    WholeIffOnDisk(history, late, base, home, configPath, authPath, entries, text, document, revisions);
    if text == document {
      var e :| e in entries && !Contains(base, e);
      var i :| 0 <= i < |entries| && entries[i] == e;
      CredentialsDiffer(base, entries, i);
    }
  }

  lemma NeverLate(history: seq<DiskState>, base: Files, newFiles: Files, undone: Files, slack: set<Path>, steady: bool)
    ensures LateExactly(history, |history|, base, newFiles, undone, slack, steady)
  {
  }

  /**
   Enrolls and activates accounts. A crash in any state before `late` leaves a
   disk that recovery takes to the old files or leaves with all the new ones;
   `late` is the history's length unless an undoing step ran behind a durable
   marker. A crash from `late` on finds a mix that recovery leaves alone.
   */
  method Enroll(daemon: Daemon, entries: seq<Entry>, accountRoots: seq<Path>, native: bool, providerKnown: bool,
                next: RouterConfig, nextDocument: string)
    returns (outcome: Outcome, swapped: bool, ghost marked: nat, ghost late: nat)
    requires daemon.Valid() && Quiet(daemon.disk.State()) && daemon.disk.Traced()
    requires forall e | e in entries :: e.path !in daemon.Owned()
    modifies daemon, daemon.disk
    ensures daemon.Valid() && daemon.disk.Traced()
    ensures old(daemon.disk.history) <= daemon.disk.history
    ensures |old(daemon.disk.history)| <= marked <= late <= |daemon.disk.history|
    ensures marked < |daemon.disk.history| ==> marked < late
    ensures AllOldOrAllNew(daemon.disk.history, |old(daemon.disk.history)|, late, daemon.home,
                           old(daemon.disk.files), Slack(native, daemon.authPath),
                           old(FilesAfter(daemon, entries, next)), {daemon.authPath})
    // Crashes from `late` on: on a steady disk they are all or nothing iff undoing changed nothing or one path at most differs.
    ensures LateExactly(daemon.disk.history, late, old(daemon.disk.files), old(FilesAfter(daemon, entries, next)),
                        old(FilesUndone(daemon, entries)), {daemon.authPath}, old(Steady(daemon)))
    // `late` is a real boundary only where the marker was durable before the undoing began.
    ensures late < |daemon.disk.history| ==> marked < late && (outcome.UndoneAll? || outcome.UndoFailed?)
    ensures outcome == Unchanged <==> providerKnown && forall e | e in entries :: Contains(old(daemon.disk.files), e)
    ensures outcome == Unchanged || outcome == PrepareFailed ==> daemon.disk.files == old(daemon.disk.files)
    ensures outcome == Enrolled ==> swapped
    // Only a step that threw, and was not undone, can follow the swap.
    ensures swapped ==> (outcome == Enrolled || outcome == Outcome.Died) && daemon.Published()
    // The views are new exactly after the swap and when the commit stage of the replacement died.
    ensures daemon.Views() != old(daemon.Views()) <==> swapped || outcome == Outcome.DiedCommitting
    ensures outcome == Outcome.DiedCommitting ==> !swapped && !daemon.Published() && daemon.target == old(daemon.target)
    ensures swapped || outcome == Outcome.DiedCommitting ==>
              && marked < late
              && Committed(daemon.disk.State(), old(FilesAfter(daemon, entries, next)), {daemon.authPath})
              && daemon.Durable() && daemon.config == next && daemon.document == next.rendered
              && daemon.revisions == NextRevisions(old(daemon.revisions), Mutation(true, true, true, NoPersist))
              && Steady(daemon)
    // What threw behind the marker, but before the commit stage, leaves the new files on disk under the old views.
    ensures outcome == Outcome.Died && marked < |daemon.disk.history| ==>
              Committed(daemon.disk.State(), old(FilesAfter(daemon, entries, next)), {daemon.authPath})
    // Rolled back: the files are the old ones again.
    ensures outcome == UndoneAll ==>
              && Quiet(daemon.disk.State())
              && SameOutside(daemon.disk.files, old(daemon.disk.files), Slack(native, daemon.authPath))
              && (old(daemon.Durable()) ==> daemon.Durable()) && (old(Steady(daemon)) ==> Steady(daemon))
  {
    hide Recover, Restores, Pending, RecoversNear, Covers, LateExactly, Disk.Traced, NewFiles;
    var disk := daemon.disk;
    ghost var newFiles, undone, steady := FilesAfter(daemon, entries, next), FilesUndone(daemon, entries), Steady(daemon);
    marked, late, swapped := |disk.history|, |disk.history|, false;
    NeverLate(disk.history, disk.files, newFiles, undone, {daemon.authPath}, steady);
    var same := AllContained(disk.files, entries);
    if same && providerKnown {
      return Unchanged, swapped, marked, late;
    }
    var prepared := Begin(daemon, entries, accountRoots, native);
    marked, late := |disk.history|, |disk.history|;
    NeverLate(disk.history, disk.files, newFiles, undone, {daemon.authPath}, steady);
    if prepared.Err? {
      return PrepareFailed, swapped, marked, late;
    }
    outcome, swapped, marked, late := ActivateOrUndo(daemon, prepared.value, entries, native, next, nextDocument);
  }

  /** Activates what was prepared, and undoes an activation that failed. */
  method ActivateOrUndo(daemon: Daemon, t: Transaction, entries: seq<Entry>, native: bool, next: RouterConfig,
                        nextDocument: string)
    returns (outcome: Outcome, swapped: bool, ghost marked: nat, ghost late: nat)
    requires daemon.Valid() && daemon.disk.Traced()
    requires Restores(daemon.disk.State(), t, daemon.home, daemon.disk.files, Slack(native, daemon.authPath))
    requires Pending(daemon.disk.State(), t)
    requires forall e | e in entries :: Covers(t.manifest, daemon.home, e.path) && e.path !in daemon.Owned()
    requires forall p | p in daemon.Owned() :: Covers(t.manifest, daemon.home, p) || p in Slack(native, daemon.authPath)
    modifies daemon, daemon.disk
    ensures daemon.Valid() && daemon.disk.Traced()
    ensures old(daemon.disk.history) <= daemon.disk.history
    ensures |old(daemon.disk.history)| <= marked <= late <= |daemon.disk.history|
    ensures marked < |daemon.disk.history| ==> marked < late
    ensures AllOldOrAllNew(daemon.disk.history, |old(daemon.disk.history)|, late, daemon.home,
                           old(daemon.disk.files), Slack(native, daemon.authPath),
                           old(FilesAfter(daemon, entries, next)), {daemon.authPath})
    ensures LateExactly(daemon.disk.history, late, old(daemon.disk.files), old(FilesAfter(daemon, entries, next)),
                        old(FilesUndone(daemon, entries)), {daemon.authPath}, old(Steady(daemon)))
    ensures late < |daemon.disk.history| ==> marked < late && (outcome.UndoneAll? || outcome.UndoFailed?)
    ensures outcome != Unchanged && outcome != PrepareFailed && (outcome == Enrolled ==> swapped)
    ensures swapped ==> (outcome == Enrolled || outcome == Outcome.Died) && daemon.Published()
    // The views are new exactly after the swap and when the commit stage of the replacement died.
    ensures daemon.Views() != old(daemon.Views()) <==> swapped || outcome == Outcome.DiedCommitting
    ensures outcome == Outcome.DiedCommitting ==> !swapped && !daemon.Published() && daemon.target == old(daemon.target)
    ensures swapped || outcome == Outcome.DiedCommitting ==>
              && marked < late
              && Committed(daemon.disk.State(), old(FilesAfter(daemon, entries, next)), {daemon.authPath})
              && daemon.Durable() && daemon.config == next && daemon.document == next.rendered
              && daemon.revisions == NextRevisions(old(daemon.revisions), Mutation(true, true, true, NoPersist))
              && Steady(daemon)
    ensures outcome == Outcome.Died && marked < |daemon.disk.history| ==>
              Committed(daemon.disk.State(), old(FilesAfter(daemon, entries, next)), {daemon.authPath})
    ensures outcome == UndoneAll ==>
              && Quiet(daemon.disk.State())
              && SameOutside(daemon.disk.files, old(daemon.disk.files), Slack(native, daemon.authPath))
              && (old(daemon.Durable()) ==> daemon.Durable()) && (old(Steady(daemon)) ==> Steady(daemon))
  {
    hide Recover, Restores, Pending, RecoversNear, Covers, BehindMarker, LateExactly, Blend, OneFileSteps;
    var disk := daemon.disk;
    ghost var base, slack := disk.files, Slack(native, daemon.authPath);
    ghost var newFiles, undone, steady := FilesAfter(daemon, entries, next), FilesUndone(daemon, entries), Steady(daemon);
    var previousConfig, previousDocument := daemon.config, daemon.document;
    var r, switched;
    r, swapped, switched, marked, late := Activate(daemon, t, entries, native, next, nextDocument, base);
    NeverLate(disk.history, base, newFiles, undone, {daemon.authPath}, steady);
    if switched {
      BecomesSteady(disk.files, old(disk.files), daemon.home, daemon.configPath, daemon.authPath, entries, daemon.document, daemon.revisions);
    }
    if !r.Fails? {
      return if r.Succeeds? then Enrolled else if switched && !swapped then Outcome.DiedCommitting else Outcome.Died, swapped, marked, late;
    }
    outcome, marked, late :=
      UndoAll(daemon, t, native, swapped, previousConfig, previousDocument, base, marked, late, newFiles, undone);
    if late == |disk.history| {
      NeverLate(disk.history, base, newFiles, undone, {daemon.authPath}, steady);
    } else {
      LateCrashes(disk.history, late, base, daemon.home, daemon.configPath, {daemon.authPath}, entries, next.rendered,
                  old(NextRevisions(daemon.revisions, Mutation(true, true, true, NoPersist))), old(daemon.document),
                  old(daemon.revisions));
    }
    if outcome == UndoneAll {
      StaysSteady(disk.files, base, slack, daemon.home, daemon.configPath, daemon.document, daemon.revisions);
      assert SameAt(disk.files, base, daemon.configPath) && SameAt(disk.files, base, RevisionsPath(daemon.home));
    }
  }

  /** The handler of a failed activation, and what a crash finds during it. */
  method UndoAll(daemon: Daemon, t: Transaction, native: bool, swapped: bool, previousConfig: RouterConfig, previousDocument: string,
                 ghost base: Files, ghost markedBefore: nat, ghost lateBefore: nat, ghost newFiles: Files, ghost undone: Files)
    returns (outcome: Outcome, ghost marked: nat, ghost late: nat)
    requires daemon.Valid() && daemon.disk.Traced() && !swapped
    requires Restores(daemon.disk.State(), t, daemon.home, base, Slack(native, daemon.authPath))
    requires markedBefore <= lateBefore <= |daemon.disk.history|
    requires BehindMarker(daemon.disk.history, markedBefore, lateBefore, newFiles, undone, {daemon.authPath})
    requires if markedBefore == |daemon.disk.history| then Pending(daemon.disk.State(), t) else Quiet(daemon.disk.State())
    modifies daemon, daemon.disk
    ensures daemon.Valid() && daemon.disk.Traced()
    ensures old(daemon.disk.history) <= daemon.disk.history
    ensures outcome == UndoneAll || outcome == UndoFailed
    ensures daemon.Views() == old(daemon.Views())
    ensures if markedBefore < |old(daemon.disk.history)| then
              && marked == markedBefore < late == lateBefore
              && QuietMixes(daemon.disk.history, late, base, newFiles, undone, {daemon.authPath})
              && SameOutside(daemon.disk.history[late - 1].files, newFiles, {daemon.authPath})
            else
              && marked == late == |daemon.disk.history|
              && forall i | |old(daemon.disk.history)| <= i < |daemon.disk.history| ::
                   RecoversNear(daemon.disk.history[i], daemon.home, base, Slack(native, daemon.authPath))
    ensures outcome == UndoneAll ==>
              Quiet(daemon.disk.State()) && SameOutside(daemon.disk.files, base, Slack(native, daemon.authPath))
  {
    hide Recover, Restores, Pending, RecoversNear, Covers, Quiet, QuietMixes, Blend, OneFileSteps;
    var disk := daemon.disk;
    ghost var trail := disk.history;
    ghost var pending := markedBefore == |trail|;
    var ok := Undo(daemon, t, native, swapped, previousConfig, previousDocument, base, pending);
    marked, late := if pending then |disk.history| else markedBefore, if pending then |disk.history| else lateBefore;
    if !pending {
      UndoMixes(trail, disk.history, marked, late, base, newFiles, undone, {daemon.authPath});
    }
    outcome := if ok then UndoneAll else UndoFailed;
  }

  method AllContained(files: Files, entries: seq<Entry>) returns (all: bool)
    ensures all <==> forall e | e in entries :: Contains(files, e)
  {
    for i := 0 to |entries|
      invariant forall e | e in entries[..i] :: Contains(files, e)
    {
      assert entries[..i + 1] == entries[..i] + [entries[i]];
      if !Contains(files, entries[i]) {
        return false;
      }
    }
    assert entries[..|entries|] == entries;
    return true;
  }
}
