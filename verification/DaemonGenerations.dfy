/**
 Replacing the daemon's router generation (packages/daemon/src/daemon-generations.ts).

 A replacement prepares a candidate router, persists config and revisions,
 switches the daemon's own views and finally publishes the candidate's url. Any
 hook, write, start or close along the way may fail; each stage undoes what it
 did and collects the failures of the undoing.
 */
module DaemonGenerations {
  import opened Wrappers
  import opened AccountTransaction

  /** A parsed config: the document it is rendered to, and whether it wants the sidecar. */
  datatype RouterConfig = RouterConfig(rendered: string, sidecar: bool)

  datatype Revisions = Revisions(config: int, accounts: int, daemon: int)

  datatype Router = Router(url: nat, config: RouterConfig)

  /** What a mutation persists after config and revisions, before the views are switched. */
  datatype Persist =
    | NoPersist
    | Activation(transaction: Transaction, native: bool, accounts: nat)

  datatype Mutation = Mutation(write: bool, configRevision: bool, accountRevision: bool, persist: Persist)

  /**
   `Died` and `DiedCommitting`: a step threw where failures are not caught, so
   nothing was undone; in the second case the views had been switched already.
   */
  datatype Outcome = Replaced | NotPublished | RolledBack | RollbackIncomplete | Died | DiedCommitting

  /** How a stage ends; only a failure reaches the handler that undoes the stage. */
  datatype Ending = Succeeds | Fails | Dies

  /** What throws in the commit stage: applying the config, or reading the credential files. */
  datatype Trouble = Trouble(applyThrows: bool, unreadable: bool)

  predicate Throws(t: Trouble) {
    t.applyThrows || t.unreadable
  }

  /** The views are the candidate's afterwards. */
  predicate Switches(outcome: Outcome) {
    outcome.Replaced? || outcome.DiedCommitting?
  }

  function NextRevisions(r: Revisions, m: Mutation): Revisions {
    r.(config := if m.configRevision then r.config + 1 else r.config,
       accounts := if m.accountRevision then r.accounts + 1 else r.accounts)
  }

  function RevisionsFile(r: Revisions): File {
    File(RevisionNumbers(r.config, r.accounts, r.daemon), DEFAULT_MODE)
  }

  /** What a starting daemon reads: a missing or unreadable file counts as zeros. */
  function ReadRevisions(files: Files, home: Path): Revisions {
    if RevisionsPath(home) in files && files[RevisionsPath(home)].content.RevisionNumbers? then
      var c := files[RevisionsPath(home)].content;
      Revisions(c.config, c.accounts, c.daemon)
    else Revisions(0, 0, 0)
  }

  function ReadDocument(files: Files, configPath: Path): Option<string> {
    if configPath in files && files[configPath].content.Text? then Some(files[configPath].content.text) else None
  }

  /** The files a successful mutation leaves: new revisions and, if it writes, the new config. */
  function NewFiles(files: Files, home: Path, configPath: Path, document: string, revisions: Revisions,
                    write: bool): Files {
    var configured := if write then files[configPath := File(Text(document), DEFAULT_MODE)] else files;
    configured[RevisionsPath(home) := RevisionsFile(revisions)]
  }

  /** Each state keeps `txns` and changes no file but those at `paths`. */
  ghost predicate Confined(history: seq<DiskState>, from: nat, to: nat, txns: map<Name, Directory>, files: Files,
                           paths: set<Path>) {
    forall i | from <= i < to && i < |history| :: history[i].txns == txns && SameOutside(history[i].files, files, paths)
  }

  lemma ConfinedVia(history: seq<DiskState>, from: nat, to: nat, txns: map<Name, Directory>,
                    via: Files, files: Files, inner: set<Path>, outer: set<Path>)
    requires Confined(history, from, to, txns, via, inner)
    requires SameOutside(via, files, outer) && inner <= outer
    ensures Confined(history, from, to, txns, files, outer)
  {
    forall i | from <= i < to && i < |history| ensures SameOutside(history[i].files, files, outer) {
      forall p | p !in outer ensures SameAt(history[i].files, files, p) {
        assert SameAt(history[i].files, via, p) && SameAt(via, files, p);
      }
    }
  }

  lemma ConfinedLonger(shorter: seq<DiskState>, longer: seq<DiskState>, from: nat, to: nat, txns: map<Name, Directory>,
                       files: Files, paths: set<Path>)
    requires shorter <= longer && to <= |shorter|
    requires Confined(shorter, from, to, txns, files, paths)
    ensures Confined(longer, from, to, txns, files, paths)
  {
    forall i | from <= i < to ensures longer[i] == shorter[i] {}
  }

  lemma ConfinedJoin(history: seq<DiskState>, from: nat, mid: nat, to: nat, txns: map<Name, Directory>, files: Files,
                     paths: set<Path>)
    requires Confined(history, from, mid, txns, files, paths) && Confined(history, mid, to, txns, files, paths)
    ensures Confined(history, from, to, txns, files, paths)
  {
  }

  lemma SameVia(a: Files, via: Files, b: Files, inner: set<Path>, outer: set<Path>)
    requires SameOutside(a, via, inner) && SameOutside(via, b, outer) && inner <= outer
    ensures SameOutside(a, b, outer)
  {
    forall p | p !in outer ensures SameAt(a, b, p) {
      assert SameAt(a, via, p) && SameAt(via, b, p);
    }
  }

  /** Every file outside `slack` is the one of `a` or the one of `b`. */
  ghost predicate Blend(files: Files, a: Files, b: Files, slack: set<Path>) {
    forall p | p !in slack :: SameAt(files, a, p) || SameAt(files, b, p)
  }

  ghost predicate Blends(history: seq<DiskState>, from: nat, a: Files, b: Files, slack: set<Path>) {
    forall i | from <= i < |history| :: Blend(history[i].files, a, b, slack)
  }

  /**
   What the disk may pass through while a mutation runs: from `start` on, the
   owned files may change; from `marked` on, the transaction carries its commit
   marker and every owned file but the auth state is new; from `late` on, undoing
   steps have started although the marker is durable, and each file is new or the
   one that undoing writes.
   */
  datatype Course = Course(start: nat, files: Files, txns: map<Name, Directory>, owned: set<Path>,
                           newFiles: Files, undoneFiles: Files, markedTxns: map<Name, Directory>, authPath: Path)

  ghost predicate Follows(history: seq<DiskState>, c: Course, marked: nat, late: nat) {
    && c.start <= marked <= late <= |history|
    && (marked < |history| ==> marked < late)
    && Confined(history, c.start, marked, c.txns, c.files, c.owned)
    && Confined(history, marked, late, c.markedTxns, c.newFiles, {c.authPath})
    && (marked == |history|
        || (Confined(history, late, |history|, c.markedTxns, c.files, c.owned)
            && Blends(history, late, c.newFiles, c.undoneFiles, {c.authPath})))
  }

  /** Undoing the persist stage takes a disk with new files through blends of the new and the undone ones. */
  lemma UndoBlends(history: seq<DiskState>, from: nat, written: Files, c: Course, home: Path, configPath: Path,
                   document: string, revisions: Revisions, write: bool)
    requires Blends(history, from, written, NewFiles(written, home, configPath, document, revisions, write), {})
    requires c.undoneFiles == NewFiles(c.files, home, configPath, document, revisions, write)
    requires SameOutside(written, c.newFiles, {c.authPath})
    ensures Blends(history, from, c.newFiles, c.undoneFiles, {c.authPath})
  {
    var undone := NewFiles(written, home, configPath, document, revisions, write);
    forall i, p | from <= i < |history| && p !in {c.authPath}
      ensures SameAt(history[i].files, c.newFiles, p) || SameAt(history[i].files, c.undoneFiles, p)
    {
      assert SameAt(history[i].files, written, p) || SameAt(history[i].files, undone, p);
      assert SameAt(written, c.newFiles, p);
    }
  }

  lemma FollowsNothing(history: seq<DiskState>, c: Course)
    requires c.start == |history|
    ensures Follows(history, c, |history|, |history|)
  {
  }

  /** Nothing is confined beyond the end of the history. */
  lemma NothingPending(history: seq<DiskState>, c: Course)
    ensures Confined(history, |history|, |history|, c.markedTxns, c.newFiles, {c.authPath})
    ensures Confined(history, |history|, |history|, c.markedTxns, c.files, c.owned)
    ensures Blends(history, |history|, c.newFiles, c.undoneFiles, {c.authPath})
  {
  }

  /** The undoing steps leave an unmarked course unmarked, and make a marked one late. */
  lemma FollowsUndo(before: seq<DiskState>, after: seq<DiskState>, c: Course, marked: nat, files: Files)
    requires Follows(before, c, marked, |before|) && before <= after
    requires Confined(after, |before|, |after|, if marked == |before| then c.txns else c.markedTxns, files, c.owned)
    requires SameOutside(files, c.files, c.owned)
    requires marked < |before| ==> Blends(after, |before|, c.newFiles, c.undoneFiles, {c.authPath})
    ensures if marked == |before| then Follows(after, c, |after|, |after|) else Follows(after, c, marked, |before|)
  {
    ConfinedLonger(before, after, c.start, marked, c.txns, c.files, c.owned);
    ConfinedLonger(before, after, marked, |before|, c.markedTxns, c.newFiles, {c.authPath});
    ConfinedVia(after, |before|, |after|, if marked == |before| then c.txns else c.markedTxns, files, c.files, c.owned, c.owned);
  }

  /** Writing the auth state keeps a course on time. */
  lemma FollowsAuth(before: seq<DiskState>, after: seq<DiskState>, c: Course, marked: nat, files: Files)
    requires Follows(before, c, marked, |before|) && before <= after
    requires Confined(after, |before|, |after|, if marked == |before| then c.txns else c.markedTxns, files, {c.authPath})
    requires SameOutside(files, c.newFiles, {c.authPath}) && SameOutside(c.newFiles, c.files, c.owned) && c.authPath in c.owned
    ensures Follows(after, c, if marked == |before| then |after| else marked, |after|)
  {
    ConfinedLonger(before, after, c.start, marked, c.txns, c.files, c.owned);
    ConfinedLonger(before, after, marked, |before|, c.markedTxns, c.newFiles, {c.authPath});
    if marked == |before| {
      SameVia(files, c.newFiles, c.files, {c.authPath}, c.owned);
      ConfinedVia(after, |before|, |after|, c.txns, files, c.files, {c.authPath}, c.owned);
    } else {
      ConfinedVia(after, |before|, |after|, c.markedTxns, files, c.newFiles, {c.authPath}, {c.authPath});
    }
  }

  lemma NewFilesConfined(files: Files, home: Path, configPath: Path, document: string, revisions: Revisions,
                         write: bool, owned: set<Path>)
    requires (write ==> configPath in owned) && RevisionsPath(home) in owned
    ensures SameOutside(NewFiles(files, home, configPath, document, revisions, write), files, owned)
  {
  }

  /** What a restarted daemon reads after a successful mutation. */
  lemma NewFilesRead(files: Files, before: Files, home: Path, configPath: Path, authPath: Path,
                     document: string, revisions: Revisions, write: bool)
    requires configPath != RevisionsPath(home) && authPath != RevisionsPath(home) && authPath != configPath
    requires SameOutside(files, NewFiles(before, home, configPath, document, revisions, write), {authPath})
    ensures ReadRevisions(files, home) == revisions
    ensures ReadDocument(files, configPath) == if write then Some(document) else ReadDocument(before, configPath)
  {
    var newFiles := NewFiles(before, home, configPath, document, revisions, write);
    assert SameAt(files, newFiles, RevisionsPath(home)) && SameAt(files, newFiles, configPath);
  }

  // ---- Sequences of replacements ----

  datatype Request = Request(next: RouterConfig, document: string, mutation: Mutation)

  /** What the daemon holds of its configuration. */
  datatype Held = Held(config: RouterConfig, document: string, revisions: Revisions)

  function Document(r: Request): string {
    if r.mutation.write then r.next.rendered else r.document
  }

  function HeldAfter(h: Held, requests: seq<Request>, outcomes: seq<Outcome>): Held
    requires |requests| == |outcomes|
  {
    if requests == [] then h
    else
      var n := |requests| - 1;
      var before := HeldAfter(h, requests[..n], outcomes[..n]);
      if !Switches(outcomes[n]) then before
      else Held(requests[n].next, Document(requests[n]), NextRevisions(before.revisions, requests[n].mutation))
  }

  /** The proxy serves the active router as long as no commit has died since the last success. */
  predicate ServesAfter(serving: bool, outcomes: seq<Outcome>) {
    if outcomes == [] then serving
    else
      var last := outcomes[|outcomes| - 1];
      last.Replaced? || (!last.DiedCommitting? && ServesAfter(serving, outcomes[..|outcomes| - 1]))
  }

  /** Whatever failed was undone completely, and no request brought a document without writing it. */
  predicate Orderly(h: Held, requests: seq<Request>, outcomes: seq<Outcome>)
    requires |requests| == |outcomes|
  {
    forall i | 0 <= i < |requests| ::
      && (outcomes[i].Replaced? || outcomes[i].RolledBack?)
      && (requests[i].mutation.write || requests[i].document == HeldAfter(h, requests[..i], outcomes[..i]).document)
  }

  lemma OrderlyBefore(h: Held, requests: seq<Request>, outcomes: seq<Outcome>)
    requires |requests| == |outcomes| > 0 && Orderly(h, requests, outcomes)
    ensures Orderly(h, requests[..|requests| - 1], outcomes[..|requests| - 1])
  {
    var n := |requests| - 1;
    forall i | 0 <= i < n
      ensures requests[..n][..i] == requests[..i] && outcomes[..n][..i] == outcomes[..i]
    {}
  }

  function Counted(requests: seq<Request>, outcomes: seq<Outcome>, accounts: bool): set<nat>
    requires |requests| == |outcomes|
  {
    set i: nat | i < |requests| && Switches(outcomes[i])
                 && (if accounts then requests[i].mutation.accountRevision else requests[i].mutation.configRevision)
  }

  /** The revisions count the requests that asked for it and switched the views, and nothing else. */
  lemma {:induction false} RevisionsCountSwitches(h: Held, requests: seq<Request>, outcomes: seq<Outcome>)
    requires |requests| == |outcomes|
    ensures HeldAfter(h, requests, outcomes).revisions ==
            Revisions(h.revisions.config + |Counted(requests, outcomes, false)|,
                      h.revisions.accounts + |Counted(requests, outcomes, true)|, h.revisions.daemon)
    decreases |requests|
  {
    if requests != [] {
      var n := |requests| - 1;
      RevisionsCountSwitches(h, requests[..n], outcomes[..n]);
      CountedNext(requests, outcomes, false);
      CountedNext(requests, outcomes, true);
    }
  }

  lemma CountedNext(requests: seq<Request>, outcomes: seq<Outcome>, accounts: bool)
    requires |requests| == |outcomes| > 0
    ensures var n := |requests| - 1;
            |Counted(requests, outcomes, accounts)|
            == |Counted(requests[..n], outcomes[..n], accounts)| + if n in Counted(requests, outcomes, accounts) then 1 else 0
  {
    var n: nat := |requests| - 1;
    var before := Counted(requests[..n], outcomes[..n], accounts);
    assert Counted(requests, outcomes, accounts) == before + if n in Counted(requests, outcomes, accounts) then {n} else {};
  }

  class Daemon {
    const disk: Disk
    const home: Path
    const configPath: Path
    const authPath: Path
    const hasProxy: bool

    var config: RouterConfig
    var document: string
    var revisions: Revisions
    var applied: RouterConfig
    var activeRouter: Option<Router>
    var target: Option<nat>
    var open: set<nat>
    var nextUrl: nat
    var sidecarOn: bool

    constructor (disk: Disk, home: Path, configPath: Path, authPath: Path, hasProxy: bool,
                 config: RouterConfig, document: string, revisions: Revisions, sidecarOn: bool)
      requires configPath != RevisionsPath(home) && authPath != RevisionsPath(home) && authPath != configPath
      ensures Valid() && this.disk == disk && this.home == home && this.configPath == configPath
      ensures this.authPath == authPath && this.hasProxy == hasProxy && activeRouter == None
      ensures NowHeld() == Held(config, document, revisions) && applied == config && this.sidecarOn == sidecarOn
      ensures target == None && open == {} && nextUrl == 0
    {
      this.disk, this.home, this.configPath, this.authPath, this.hasProxy := disk, home, configPath, authPath, hasProxy;
      this.config, this.document, this.revisions, this.applied := config, document, revisions, config;
      activeRouter, target, open, nextUrl := None, None, {}, 0;
      this.sidecarOn := sidecarOn;
    }

    ghost predicate Valid()
      reads this
    {
      && configPath != RevisionsPath(home)
      && authPath != RevisionsPath(home) && authPath != configPath
      && (forall url | url in open :: url < nextUrl)
      && (activeRouter.Some? ==> activeRouter.value.url < nextUrl)
      && (target.Some? ==> target.value < nextUrl)
    }

    /** The proxy serves the active router. */
    ghost predicate Published()
      reads this
    {
      hasProxy && activeRouter.Some? && target == Some(activeRouter.value.url)
    }

    /** A restarted daemon would read back the document and revisions held in memory. */
    ghost predicate Durable()
      reads this, disk
    {
      ReadDocument(disk.files, configPath) == Some(document) && ReadRevisions(disk.files, home) == revisions
    }

    ghost predicate Settled()
      reads this, disk
    {
      Published() && Durable() && applied == config && sidecarOn == config.sidecar
    }

    /** The views other services read. */
    ghost function Views(): (RouterConfig, string, Revisions, Option<Router>, Option<nat>)
      reads this
    {
      (config, document, revisions, activeRouter, target)
    }

    ghost function Owned(): set<Path> {
      {configPath, RevisionsPath(home), authPath}
    }

    /** The course a mutation has to follow from the current state. */
    ghost function CourseOf(next: RouterConfig, mutation: Mutation): Course
      reads this, disk
    {
      Course(|disk.history|, disk.files, disk.txns, Owned(),
             NewFiles(disk.files, home, configPath, next.rendered, NextRevisions(revisions, mutation), mutation.write),
             NewFiles(disk.files, home, configPath, document, revisions, mutation.write),
             Marked(disk.txns, mutation.persist), authPath)
    }

    // ---- Effects that may fail ----

    method Hook() returns (ok: bool) {
      ok := *;
    }

    method ReconcileSidecar(wanted: bool) returns (ok: bool)
      modifies `sidecarOn
      ensures ok ==> sidecarOn == wanted
    {
      sidecarOn := *;
      ok := *;
      if ok { sidecarOn := wanted; }
    }

    method Start(next: RouterConfig) returns (r: Option<Router>)
      requires Valid()
      modifies `open, `nextUrl
      ensures Valid()
      ensures r.None? ==> open == old(open) && nextUrl == old(nextUrl)
      ensures r.Some? ==> r.value == Router(old(nextUrl), next) && r.value.url !in old(open)
                          && open == old(open) + {r.value.url} && nextUrl == old(nextUrl) + 1
    {
      if * {
        r := None;
      } else {
        r := Some(Router(nextUrl, next));
        open := open + {nextUrl};
        nextUrl := nextUrl + 1;
      }
    }

    /** Closing is idempotent; a failed close may leave the router open. */
    method Close(router: Router) returns (ok: bool)
      modifies `open
      ensures open == old(open) - {router.url} || (!ok && open == old(open))
    {
      ok := *;
      if ok { open := open - {router.url}; }
    }

    method WriteConfig(text: string) returns (ok: bool)
      modifies disk
      ensures disk.history == old(disk.history) + [disk.State()] && disk.txns == old(disk.txns)
      ensures old(disk.Traced()) ==> disk.Traced()
      ensures disk.files == old(disk.files)[configPath := File(Text(text), DEFAULT_MODE)]
              || (!ok && disk.files == old(disk.files))
    {
      ok := disk.WriteFile(configPath, File(Text(text), DEFAULT_MODE));
    }

    method WriteRevisions(r: Revisions) returns (ok: bool)
      modifies disk
      ensures disk.history == old(disk.history) + [disk.State()] && disk.txns == old(disk.txns)
      ensures old(disk.Traced()) ==> disk.Traced()
      ensures disk.files == old(disk.files)[RevisionsPath(home) := RevisionsFile(r)]
              || (!ok && disk.files == old(disk.files))
    {
      ok := disk.WriteFile(RevisionsPath(home), RevisionsFile(r));
    }

    /** The auth coordinator persists its state; what it writes is its own business. */
    method PersistAuth() returns (ok: bool)
      modifies disk
      ensures disk.history == old(disk.history) + [disk.State()] && disk.txns == old(disk.txns)
      ensures old(disk.Traced()) ==> disk.Traced()
      ensures SameOutside(disk.files, old(disk.files), {authPath})
    {
      var text: string := *;
      ok := disk.WriteFile(authPath, File(Text(text), DEFAULT_MODE));
    }

    // ---- Stages ----

    /**
     Starts and validates a candidate. A failure closes it and restores the sidecar;
     what throws before it starts is undone by nobody.
     */
    method PrepareCandidate(next: RouterConfig) returns (r: Option<Router>, clean: bool, died: bool)
      requires Valid()
      modifies `open, `nextUrl, `sidecarOn
      ensures Valid()
      ensures r.Some? ==> r.value == Router(old(nextUrl), next) && r.value.url !in old(open)
                          && open == old(open) + {r.value.url} && nextUrl == old(nextUrl) + 1
      ensures r.Some? ==> sidecarOn == next.sidecar && !died
      ensures old(open) <= open <= old(open) + {old(nextUrl)} && old(nextUrl) <= nextUrl
      ensures r.None? && clean && !died ==> open == old(open) && sidecarOn == config.sidecar
    {
      r, clean, died := None, true, false;
      var ok := Hook();
      if ok { ok := ReconcileSidecar(next.sidecar); }
      if ok {
        var environment := Hook();
        if !environment { return None, true, true; }
        r := Start(next);
        ok := r.Some?;
      }
      if ok { ok := Hook(); }
      if !ok {
        if r.Some? {
          clean := Close(r.value);
          // The scope's finalizer closes an unpublished candidate once more.
          var again := Close(r.value);
          r := None;
        }
        var restored := ReconcileSidecar(config.sidecar);
        clean := clean && restored;
      }
    }

    /** The mutation's own state: the auth entries, then the commit marker, which is not undone if anything throws. */
    method PersistActivation(persist: Persist) returns (r: Ending, ghost marked: nat)
      requires Valid()
      modifies disk
      ensures old(disk.history) <= disk.history
      ensures old(disk.Traced()) ==> disk.Traced()
      ensures |old(disk.history)| <= marked <= |disk.history|
      ensures Confined(disk.history, |old(disk.history)|, marked, old(disk.txns), old(disk.files), {authPath})
      ensures persist.NoPersist? ==> r.Succeeds? && disk.State() == old(disk.State()) && marked == |disk.history|
      ensures marked < |disk.history| ==>
                && persist.Activation? && persist.transaction.directory in old(disk.txns)
                && Confined(disk.history, marked, |disk.history|,
                            WithManifest(old(disk.txns), persist.transaction.directory,
                                         persist.transaction.manifest.(state := Committed)),
                            old(disk.files), {authPath})
      ensures marked == |disk.history| ==> disk.txns == old(disk.txns)
      ensures marked < |disk.history| ==> disk.State() == disk.history[|disk.history| - 1]
      ensures SameOutside(disk.files, old(disk.files), {authPath})
      ensures r.Succeeds? && persist.Activation? ==> marked < |disk.history|
    {
      marked := |disk.history|;
      if persist.NoPersist? { return Succeeds, marked; }
      var ok;
      var i := 0;
      while persist.native && i < persist.accounts
        invariant old(disk.history) <= disk.history && marked == |disk.history|
        invariant old(disk.Traced()) ==> disk.Traced()
        invariant disk.txns == old(disk.txns) && SameOutside(disk.files, old(disk.files), {authPath})
        invariant Confined(disk.history, |old(disk.history)|, |disk.history|, old(disk.txns), old(disk.files), {authPath})
      {
        var readable := Hook();
        if !readable { return Dies, marked; }
        ok := PersistAuth();
        marked := |disk.history|;
        if !ok { return Fails, marked; }
        i := i + 1;
      }
      ghost var before := |disk.history|;
      var transaction;
      transaction, ok := MarkCommitted(disk, persist.transaction);
      marked := if disk.txns == old(disk.txns) && !ok then |disk.history| else before;
      if !ok { return Dies, marked; }
      if !persist.native {
        var refreshed := Hook();
        if !refreshed { return Fails, marked; }
      }
      var hook := Hook();
      r := if hook then Succeeds else Dies;
    }

    /** Writes the new config, if the mutation writes one, and the new revisions. */
    method WriteNew(next: RouterConfig, nextRevisions: Revisions, write: bool) returns (ok: bool)
      modifies disk
      ensures old(disk.history) <= disk.history && disk.txns == old(disk.txns)
      ensures old(disk.Traced()) ==> disk.Traced()
      ensures Confined(disk.history, |old(disk.history)|, |disk.history|, old(disk.txns), old(disk.files), Owned())
      ensures SameOutside(disk.files, old(disk.files), Owned())
      ensures configPath != RevisionsPath(home) && !write ==> SameAt(disk.files, old(disk.files), configPath)
      ensures ok ==> disk.files == NewFiles(old(disk.files), home, configPath, next.rendered, nextRevisions, write)
    {
      ok := Hook();
      if ok && write { ok := WriteConfig(next.rendered); }
      if ok { ok := WriteRevisions(nextRevisions); }
    }

    /** Writes config, revisions and the mutation's own state; reads back the document it committed. */
    method PersistStage(next: RouterConfig, nextDocument: string, nextRevisions: Revisions, mutation: Mutation)
      returns (r: Ending, committed: string, ghost marked: nat)
      requires Valid() && nextRevisions == NextRevisions(revisions, mutation)
      modifies disk
      ensures old(disk.history) <= disk.history
      ensures old(disk.Traced()) ==> disk.Traced()
      ensures Follows(disk.history, old(CourseOf(next, mutation)), marked, |disk.history|) && marked <= |disk.history|
      ensures disk.txns == if marked == |disk.history| then old(disk.txns) else Marked(old(disk.txns), mutation.persist)
      ensures marked < |disk.history| ==> mutation.persist.Activation?
      ensures SameOutside(disk.files, old(disk.files), Owned())
      ensures !mutation.write ==> SameAt(disk.files, old(disk.files), configPath)
      ensures r.Succeeds? || marked < |disk.history| ==>
                SameOutside(disk.files, NewFiles(old(disk.files), home, configPath, next.rendered, nextRevisions, mutation.write), {authPath})
      ensures r.Succeeds? ==>
                && (mutation.persist.Activation? ==> marked < |disk.history|)
                && committed == if mutation.write then next.rendered else nextDocument
    {
      hide Confined;
      committed := nextDocument;
      var ok := WriteNew(next, nextRevisions, mutation.write);
      marked := |disk.history|;
      ghost var written, trail := disk.files, disk.history;
      r := Fails;
      if ok {
        r, marked := PersistActivation(mutation.persist);
        ConfinedVia(disk.history, |trail|, marked, old(disk.txns), written, old(disk.files), {authPath}, Owned());
        ConfinedLonger(trail, disk.history, |old(disk.history)|, |trail|, old(disk.txns), old(disk.files), Owned());
        ConfinedJoin(disk.history, |old(disk.history)|, |trail|, marked, old(disk.txns), old(disk.files), Owned());
        SameVia(disk.files, written, old(disk.files), {authPath}, Owned());
        assert SameAt(disk.files, written, configPath);
        if r.Succeeds? && mutation.write {
          committed := disk.files[configPath].content.text;
          var readable := Hook();
          if !readable { r := Dies; }
        }
      }
      NothingPending(disk.history, old(CourseOf(next, mutation)));
    }

    /** Undoes the writes of the persist stage; `ok` when every undoing step succeeded. */
    method UndoPersist(previousDocument: string, previousRevisions: Revisions, write: bool) returns (ok: bool)
      requires configPath != RevisionsPath(home)
      modifies disk
      ensures old(disk.history) <= disk.history && disk.txns == old(disk.txns)
      ensures old(disk.Traced()) ==> disk.Traced()
      ensures Confined(disk.history, |old(disk.history)|, |disk.history|, old(disk.txns), old(disk.files), Owned())
      ensures SameOutside(disk.files, old(disk.files), Owned())
      ensures Blends(disk.history, |old(disk.history)|, old(disk.files),
                     NewFiles(old(disk.files), home, configPath, previousDocument, previousRevisions, write), {})
      ensures ok ==>
                && ReadRevisions(disk.files, home) == previousRevisions
                && ReadDocument(disk.files, configPath)
                   == if write then Some(previousDocument) else ReadDocument(old(disk.files), configPath)
    {
      ok := true;
      ghost var undone := NewFiles(disk.files, home, configPath, previousDocument, previousRevisions, write);
      if write {
        ok := WriteConfig(previousDocument);
        assert Blend(disk.files, old(disk.files), undone, {});
      }
      if ok {
        ok := WriteRevisions(previousRevisions);
        assert Blend(disk.files, old(disk.files), undone, {});
      }
      assert !write ==> SameAt(disk.files, old(disk.files), configPath);
    }

    /**
     Switches every daemon-local view to the candidate, then reconciles auth and runs
     the commit hook. Trouble comes when the views have been switched.
     */
    method CommitStage(candidate: Router, next: RouterConfig, committed: string, nextRevisions: Revisions,
                       trouble: Trouble)
      returns (r: Ending)
      modifies `activeRouter, `config, `document, `revisions, `applied, disk
      ensures r.Dies? <==> Throws(trouble)
      ensures old(disk.history) <= disk.history && disk.txns == old(disk.txns)
      ensures old(disk.Traced()) ==> disk.Traced()
      ensures Confined(disk.history, |old(disk.history)|, |disk.history|, old(disk.txns), old(disk.files), {authPath})
      ensures SameOutside(disk.files, old(disk.files), {authPath})
      ensures r.Dies? ==> disk.history == old(disk.history) && disk.State() == old(disk.State())
      ensures activeRouter == Some(candidate) && config == next && document == committed && revisions == nextRevisions
      ensures !r.Dies? ==> applied == next
    {
      activeRouter := Some(candidate);
      config := next;
      document := committed;
      revisions := nextRevisions;
      if trouble.applyThrows {
        if * { applied := next; }
        return Dies;
      }
      applied := next;
      if trouble.unreadable { return Dies; }
      var ok := PersistAuth();
      if ok { ok := Hook(); }
      r := if ok then Succeeds else Fails;
    }

    /** Closes a candidate that will not be published and restores the sidecar. */
    method Discard(candidate: Router, sidecar: bool) returns (ok: bool)
      modifies `open, `sidecarOn
      ensures open == old(open) - {candidate.url} || (!ok && open == old(open))
      ensures ok ==> sidecarOn == sidecar
    {
      ok := Close(candidate);
      var restored := ReconcileSidecar(sidecar);
      ok := ok && restored;
      var again := Close(candidate);
    }

    /** What undoing brings back: the previous document and revisions on disk, no candidate, the old sidecar. */
    ghost predicate Undone(candidate: Router, open0: set<nat>, files0: Files, document0: string,
                           revisions0: Revisions, write: bool)
      reads this, disk
    {
      && open == open0 - {candidate.url}
      && sidecarOn == config.sidecar
      && ReadRevisions(disk.files, home) == revisions0
      && ReadDocument(disk.files, configPath) == if write then Some(document0) else ReadDocument(files0, configPath)
    }

    /** What both rollbacks do: the undoing writes, then the candidate and the sidecar. */
    method UndoStage(candidate: Router, write: bool, ghost course: Course, ghost markedBefore: nat)
      returns (clean: bool, ghost marked: nat, ghost late: nat)
      requires configPath != RevisionsPath(home) && course.owned == Owned() && course.authPath == authPath
      requires Follows(disk.history, course, markedBefore, |disk.history|)
      requires disk.txns == if markedBefore == |disk.history| then course.txns else course.markedTxns
      requires SameOutside(disk.files, course.files, Owned())
      requires markedBefore < |disk.history| ==> SameOutside(disk.files, course.newFiles, {authPath})
      requires course.undoneFiles == NewFiles(course.files, home, configPath, document, revisions, write)
      modifies `open, `sidecarOn, disk
      ensures old(disk.history) <= disk.history && disk.txns == old(disk.txns)
      ensures old(disk.Traced()) ==> disk.Traced()
      ensures Follows(disk.history, course, marked, late) && marked <= late <= |disk.history|
      ensures marked == if markedBefore == |old(disk.history)| then |disk.history| else markedBefore
      ensures SameOutside(disk.files, course.files, Owned())
      ensures old(open) - {candidate.url} <= open <= old(open)
      ensures clean ==> Undone(candidate, old(open), old(disk.files), document, revisions, write)
    {
      hide Confined, Blends, Disk.Traced;
      ghost var trail, written := disk.history, disk.files;
      var undone := UndoPersist(document, revisions, write);
      if markedBefore < |trail| {
        UndoBlends(disk.history, |trail|, written, course, home, configPath, document, revisions, write);
      }
      FollowsUndo(trail, disk.history, course, markedBefore, written);
      SameVia(disk.files, written, course.files, Owned(), Owned());
      marked, late := markedBefore, |trail|;
      if marked == late { marked, late := |disk.history|, |disk.history|; }
      var discarded := Discard(candidate, config.sidecar);
      clean := undone && discarded;
    }

    /** The persist stage, with its rollback. */
    method PersistOrUndo(candidate: Router, next: RouterConfig, nextDocument: string, mutation: Mutation)
      returns (r: Ending, clean: bool, committed: string, ghost marked: nat, ghost late: nat)
      requires Valid()
      modifies `open, `sidecarOn, disk
      ensures Valid()
      ensures old(disk.history) <= disk.history
      ensures old(disk.Traced()) ==> disk.Traced()
      ensures marked <= late <= |disk.history|
      ensures Follows(disk.history, old(CourseOf(next, mutation)), marked, late)
      ensures SameOutside(disk.files, old(disk.files), Owned())
      ensures disk.txns == if marked == |disk.history| then old(disk.txns) else Marked(old(disk.txns), mutation.persist)
      ensures marked < |disk.history| ==> mutation.persist.Activation?
      ensures !r.Fails? ==> late == |disk.history|
      ensures old(open) - {candidate.url} <= open <= old(open)
      ensures r.Succeeds? ==>
                && late == |disk.history|
                && (mutation.persist.Activation? ==> marked < |disk.history|)
                && SameOutside(disk.files, old(CourseOf(next, mutation)).newFiles, {authPath})
                && ReadRevisions(disk.files, home) == NextRevisions(old(revisions), mutation)
                && ReadDocument(disk.files, configPath)
                   == (if mutation.write then Some(next.rendered) else ReadDocument(old(disk.files), configPath))
                && committed == (if mutation.write then next.rendered else nextDocument)
                && open == old(open) && sidecarOn == old(sidecarOn)
      ensures r.Fails? && clean ==> Undone(candidate, old(open), old(disk.files), document, revisions, mutation.write)
    {
      hide Confined, Marked, Blends, Follows, Disk.Traced;
      ghost var course := CourseOf(next, mutation);
      clean := true;
      var nextRevisions := NextRevisions(revisions, mutation);
      r, committed, marked := PersistStage(next, nextDocument, nextRevisions, mutation);
      late := |disk.history|;
      if r.Succeeds? {
        NewFilesRead(disk.files, old(disk.files), home, configPath, authPath, next.rendered, nextRevisions, mutation.write);
      } else if r.Dies? {
        // Only the scope's finalizer runs.
        var closed := Close(candidate);
      } else {
        clean, marked, late := UndoStage(candidate, mutation.write, course, marked);
      }
    }

    /** The views are those of a mutation that reached its commit stage, over the files that it persisted. */
    ghost predicate Switched(candidate: Router, next: RouterConfig, committed: string, before: Revisions, files0: Files,
                             mutation: Mutation)
      reads `activeRouter, `config, `document, `revisions, disk
    {
      && activeRouter == Some(candidate) && config == next && document == committed
      && revisions == NextRevisions(before, mutation)
      && ReadRevisions(disk.files, home) == revisions
      && ReadDocument(disk.files, configPath) == if mutation.write then Some(committed) else ReadDocument(files0, configPath)
    }

    /** The commit stage on its course. */
    method CommitOnCourse(candidate: Router, next: RouterConfig, committed: string, nextRevisions: Revisions,
                          trouble: Trouble, ghost course: Course, ghost markedBefore: nat)
      returns (r: Ending, ghost marked: nat)
      requires configPath != RevisionsPath(home) && authPath != RevisionsPath(home) && authPath != configPath
      requires course.owned == Owned() && course.authPath == authPath
      requires Follows(disk.history, course, markedBefore, |disk.history|) && markedBefore <= |disk.history|
      requires disk.txns == if markedBefore == |disk.history| then course.txns else course.markedTxns
      requires SameOutside(disk.files, course.newFiles, {authPath}) && SameOutside(disk.files, course.files, Owned())
      requires SameOutside(course.newFiles, course.files, Owned())
      modifies `activeRouter, `config, `document, `revisions, `applied, disk
      ensures r.Dies? <==> Throws(trouble)
      ensures old(disk.history) <= disk.history && disk.txns == old(disk.txns)
      ensures old(disk.Traced()) ==> disk.Traced()
      ensures Follows(disk.history, course, marked, |disk.history|) && marked <= |disk.history|
      ensures marked == if markedBefore == |old(disk.history)| then |disk.history| else markedBefore
      ensures SameOutside(disk.files, course.newFiles, {authPath}) && SameOutside(disk.files, course.files, Owned())
      ensures ReadRevisions(disk.files, home) == ReadRevisions(old(disk.files), home)
      ensures ReadDocument(disk.files, configPath) == ReadDocument(old(disk.files), configPath)
      ensures activeRouter == Some(candidate) && config == next && document == committed && revisions == nextRevisions
      ensures !r.Dies? ==> applied == next
    {
      hide Confined, Blends, Follows, Disk.Traced;
      ghost var trail, written := disk.history, disk.files;
      r := CommitStage(candidate, next, committed, nextRevisions, trouble);
      SameVia(disk.files, written, course.newFiles, {authPath}, {authPath});
      SameVia(disk.files, written, course.files, {authPath}, Owned());
      FollowsAuth(trail, disk.history, course, markedBefore, written);
      marked := if markedBefore == |trail| then |disk.history| else markedBefore;
      assert SameAt(disk.files, written, configPath) && SameAt(disk.files, written, RevisionsPath(home));
    }

    /** The rollback of the commit stage: the views, what was applied, and then as for the persist stage. */
    method UndoCommit(candidate: Router, previousRouter: Router, previousConfig: RouterConfig, previousDocument: string,
                      previousRevisions: Revisions, write: bool, ghost course: Course, ghost markedBefore: nat)
      returns (clean: bool, ghost marked: nat, ghost late: nat)
      requires configPath != RevisionsPath(home) && course.owned == Owned() && course.authPath == authPath
      requires Follows(disk.history, course, markedBefore, |disk.history|)
      requires disk.txns == if markedBefore == |disk.history| then course.txns else course.markedTxns
      requires SameOutside(disk.files, course.files, Owned()) && SameOutside(disk.files, course.newFiles, {authPath})
      requires course.undoneFiles == NewFiles(course.files, home, configPath, previousDocument, previousRevisions, write)
      modifies `activeRouter, `config, `document, `revisions, `applied, `open, `sidecarOn, disk
      ensures old(disk.history) <= disk.history && disk.txns == old(disk.txns)
      ensures old(disk.Traced()) ==> disk.Traced()
      ensures Follows(disk.history, course, marked, late) && marked <= late <= |disk.history|
      ensures marked == if markedBefore == |old(disk.history)| then |disk.history| else markedBefore
      ensures SameOutside(disk.files, course.files, Owned())
      ensures old(open) - {candidate.url} <= open <= old(open)
      ensures activeRouter == Some(previousRouter) && config == previousConfig
      ensures document == previousDocument && revisions == previousRevisions
      ensures clean ==> applied == config && Undone(candidate, old(open), old(disk.files), document, revisions, write)
    {
      hide Confined, Blends, Follows, SameOutside, Disk.Traced, NewFiles;
      activeRouter := Some(previousRouter);
      config, document, revisions := previousConfig, previousDocument, previousRevisions;
      var reapplied := Hook();
      if reapplied { applied := previousConfig; }
      clean, marked, late := UndoStage(candidate, write, course, markedBefore);
      clean := clean && reapplied;
    }

    /** The commit stage, with its rollback. */
    method CommitOrUndo(candidate: Router, previousRouter: Router, next: RouterConfig, committed: string,
                        mutation: Mutation, trouble: Trouble,
                        ghost course: Course, ghost markedBefore: nat, ghost files0: Files)
      returns (r: Ending, clean: bool, ghost marked: nat, ghost late: nat)
      requires Valid() && candidate.url < nextUrl && activeRouter == Some(previousRouter)
      requires course.owned == Owned() && course.authPath == authPath
      requires Follows(disk.history, course, markedBefore, |disk.history|) && markedBefore <= |disk.history|
      requires disk.txns == if markedBefore == |disk.history| then course.txns else course.markedTxns
      requires SameOutside(disk.files, course.newFiles, {authPath}) && SameOutside(disk.files, course.files, Owned())
      requires SameOutside(course.newFiles, course.files, Owned())
      requires ReadRevisions(disk.files, home) == NextRevisions(revisions, mutation)
      requires ReadDocument(disk.files, configPath) == if mutation.write then Some(committed) else ReadDocument(files0, configPath)
      requires course.undoneFiles == NewFiles(course.files, home, configPath, document, revisions, mutation.write)
      modifies `activeRouter, `config, `document, `revisions, `applied, `open, `sidecarOn, disk
      ensures Valid()
      ensures old(disk.history) <= disk.history
      ensures old(disk.Traced()) ==> disk.Traced()
      ensures marked <= late <= |disk.history|
      ensures Follows(disk.history, course, marked, late)
      ensures marked == if markedBefore == |old(disk.history)| then |disk.history| else markedBefore
      ensures SameOutside(disk.files, course.files, Owned()) && disk.txns == old(disk.txns)
      ensures r.Dies? <==> Throws(trouble)
      ensures !r.Fails? ==>
                && late == |disk.history|
                && SameOutside(disk.files, course.newFiles, {authPath})
                && Switched(candidate, next, committed, old(revisions), files0, mutation) && sidecarOn == old(sidecarOn)
      ensures r.Succeeds? ==> applied == next && open == old(open)
      ensures old(open) - {candidate.url} <= open <= old(open)
      ensures r.Fails? ==>
                && activeRouter == Some(previousRouter) && config == old(config)
                && document == old(document) && revisions == old(revisions)
                && (clean ==> applied == config)
                && (clean ==> Undone(candidate, old(open), files0, document, revisions, mutation.write))
    {
      hide Confined, Marked, Blends, Follows, Disk.Traced, NextRevisions, ReadRevisions, ReadDocument, NewFiles, SameOutside, Owned;
      clean := true;
      var previousDocument, previousConfig, previousRevisions := document, config, revisions;
      r, marked := CommitOnCourse(candidate, next, committed, NextRevisions(previousRevisions, mutation), trouble, course, markedBefore);
      late := |disk.history|;
      if r.Dies? {
        // Only the scope's finalizer runs.
        var closed := Close(candidate);
      } else if r.Fails? {
        clean, marked, late :=
          UndoCommit(candidate, previousRouter, previousConfig, previousDocument, previousRevisions, mutation.write, course, marked);
      }
    }

    /**
     Replaces the router generation. `marked` is the index of the first disk state
     that carries the commit marker, and `late` the first one written by an
     undoing step after the marker; both are the history's length if there is none.
     */
    method Replace(next: RouterConfig, nextDocument: string, mutation: Mutation)
      returns (outcome: Outcome, ghost marked: nat, ghost late: nat)
      requires Valid()
      modifies this, disk
      ensures Valid()
      ensures outcome == NotPublished <==> !hasProxy || old(activeRouter) == None
      ensures outcome == NotPublished ==> Views() == old(Views()) && disk.State() == old(disk.State())
      // Success: the views are the candidate's, and it is what the proxy serves.
      ensures outcome == Replaced ==>
                && Published() && activeRouter == Some(Router(old(nextUrl), next)) && old(nextUrl) in open
                && config == next && applied == next && sidecarOn == next.sidecar
                && document == (if mutation.write then next.rendered else nextDocument)
                && revisions == NextRevisions(old(revisions), mutation)
                && ReadRevisions(disk.files, home) == revisions
                && (Durable() <==> mutation.write || ReadDocument(old(disk.files), configPath) == Some(nextDocument))
      // The views change exactly on success and when the commit stage dies.
      ensures Views() == old(Views()) <==> !Switches(outcome)
      // A dead commit: the views are the candidate's, which is not served, over the new files.
      ensures outcome == DiedCommitting ==>
                && activeRouter == Some(Router(old(nextUrl), next)) && target == old(target) && !Published()
                && config == next && document == (if mutation.write then next.rendered else nextDocument)
                && revisions == NextRevisions(old(revisions), mutation)
                && ReadRevisions(disk.files, home) == revisions
                && (Durable() <==> mutation.write || ReadDocument(old(disk.files), configPath) == Some(nextDocument))
      ensures outcome.Died? || outcome.DiedCommitting? ==> late == |disk.history|
      // Only a success closes a router that was open before: the one that was active.
      ensures old(open) - (if outcome == Replaced then {old(activeRouter).value.url} else {}) <= open
      ensures open <= old(open) + {old(nextUrl)} && old(nextUrl) <= nextUrl
      ensures outcome.RolledBack? && old(Settled()) ==> Settled() && open == old(open)
      // The trail on disk.
      ensures old(disk.history) <= disk.history
      ensures old(disk.Traced()) ==> disk.Traced()
      ensures Follows(disk.history, old(CourseOf(next, mutation)), marked, late)
      ensures SameOutside(disk.files, old(disk.files), Owned())
      ensures disk.txns == if marked == |disk.history| then old(disk.txns) else Marked(old(disk.txns), mutation.persist)
      ensures marked < |disk.history| ==> mutation.persist.Activation?
      ensures Switches(outcome) ==>
                && late == |disk.history|
                && (mutation.persist.Activation? ==> marked < |disk.history|)
                && SameOutside(disk.files, old(CourseOf(next, mutation)).newFiles, {authPath})
    {
      hide Follows, Disk.Traced, Marked, NewFiles, ReadRevisions, NextRevisions;
      marked, late := |disk.history|, |disk.history|;
      FollowsNothing(disk.history, CourseOf(next, mutation));
      if !hasProxy || activeRouter.None? {
        outcome := NotPublished;
      } else {
        var candidate, clean, died := PrepareCandidate(next);
        if died {
          outcome := Died;
        } else if candidate.None? {
          outcome := if clean then RolledBack else RollbackIncomplete;
        } else {
          outcome, marked, late := Advance(candidate.value, activeRouter.value, next, nextDocument, mutation);
        }
      }
    }

    ghost function NowHeld(): Held
      reads this
    {
      Held(config, document, revisions)
    }

    /**
     One replacement after the other, whatever becomes of each. The proxy serves the
     active router exactly if no commit has died since the last success, the views
     are those of the last replacement that switched them, and an orderly run leaves
     a settled daemon settled.
     */
    method ReplaceEach(requests: seq<Request>) returns (outcomes: seq<Outcome>)
      requires Valid()
      modifies this, disk
      ensures Valid() && |outcomes| == |requests|
      ensures Published() <==> ServesAfter(old(Published()), outcomes)
      ensures NowHeld() == HeldAfter(old(NowHeld()), requests, outcomes)
      ensures old(Settled()) && Orderly(old(NowHeld()), requests, outcomes) ==> Settled()
    {
      hide Follows, Confined, SameOutside, Disk.Traced, Marked, NewFiles, ReadRevisions, ReadDocument;
      outcomes := [];
      assert requests[..0] == [];
      for i := 0 to |requests|
        invariant Valid() && |outcomes| == i
        invariant Published() <==> ServesAfter(old(Published()), outcomes)
        invariant NowHeld() == HeldAfter(old(NowHeld()), requests[..i], outcomes)
        invariant old(Settled()) && Orderly(old(NowHeld()), requests[..i], outcomes) ==> Settled()
      {
        ghost var before := outcomes;
        var outcome;
        ghost var marked, late;
        outcome, marked, late := Replace(requests[i].next, requests[i].document, requests[i].mutation);
        outcomes := outcomes + [outcome];
        assert requests[..i + 1][..i] == requests[..i] && outcomes[..i] == before;
        if Orderly(old(NowHeld()), requests[..i + 1], outcomes) {
          OrderlyBefore(old(NowHeld()), requests[..i + 1], outcomes);
          assert outcomes[i] == outcome && requests[..i + 1][i] == requests[i];
        }
      }
      assert requests[..|requests|] == requests;
    }

    /**
     After a dead commit the next success retires the candidate that was never
     served; the router that was served stays open, and nothing refers to it.
     */
    method DieThenReplace(first: Request, second: Request) returns (one: Outcome, two: Outcome)
      requires Valid() && Published() && activeRouter.value.url in open
      modifies this, disk
      ensures one == DiedCommitting && two == Replaced ==>
                var served := old(activeRouter).value.url;
                Published() && served in open && activeRouter.value.url != served && target != Some(served)
    {
      ghost var marked, late;
      one, marked, late := Replace(first.next, first.document, first.mutation);
      two, marked, late := Replace(second.next, second.document, second.mutation);
    }

    method SomeTrouble() returns (trouble: Trouble) {
      trouble := *;
    }

    /** Everything after the candidate is validated: persist, commit, publish, retire. */
    method Advance(candidate: Router, previousRouter: Router, next: RouterConfig, nextDocument: string,
                   mutation: Mutation)
      returns (outcome: Outcome, ghost marked: nat, ghost late: nat)
      requires Valid() && activeRouter == Some(previousRouter)
      requires candidate.url < nextUrl && candidate.url in open && candidate.url != previousRouter.url
      modifies `revisions, `activeRouter, `config, `document, `applied, `target, `open, `sidecarOn, disk
      ensures Valid() && outcome != NotPublished
      ensures outcome == Replaced ==>
                && target == Some(candidate.url) && candidate.url in open && applied == next && sidecarOn == old(sidecarOn)
      ensures Switches(outcome) ==>
                Switched(candidate, next, if mutation.write then next.rendered else nextDocument, old(revisions), old(disk.files), mutation)
      ensures outcome == DiedCommitting ==> target == old(target)
      ensures !Switches(outcome) ==> Views() == old(Views())
      ensures outcome.RolledBack? ==> applied == old(applied) || applied == config
      ensures outcome.Died? || outcome.DiedCommitting? ==> late == |disk.history|
      ensures old(open) - {candidate.url} - (if outcome == Replaced then {previousRouter.url} else {}) <= open <= old(open)
      ensures outcome.RolledBack? ==> Undone(candidate, old(open), old(disk.files), document, revisions, mutation.write)
      ensures old(disk.history) <= disk.history
      ensures old(disk.Traced()) ==> disk.Traced()
      ensures Follows(disk.history, old(CourseOf(next, mutation)), marked, late)
      ensures SameOutside(disk.files, old(disk.files), Owned())
      ensures disk.txns == if marked == |disk.history| then old(disk.txns) else Marked(old(disk.txns), mutation.persist)
      ensures marked < |disk.history| ==> mutation.persist.Activation?
      ensures Switches(outcome) ==>
                && late == |disk.history|
                && (mutation.persist.Activation? ==> marked < |disk.history|)
                && SameOutside(disk.files, old(CourseOf(next, mutation)).newFiles, {authPath})
    {
      hide Confined, SameOutside, Marked, Blends, Follows, Disk.Traced, NewFiles, ReadRevisions, ReadDocument, NextRevisions, Undone, Switched, Published, Throws;
      ghost var course, files0 := CourseOf(next, mutation), disk.files;
      NewFilesConfined(disk.files, home, configPath, next.rendered, NextRevisions(revisions, mutation), mutation.write, Owned());
      var ending, clean, committed;
      ending, clean, committed, marked, late := PersistOrUndo(candidate, next, nextDocument, mutation);
      if ending.Dies? {
        return Died, marked, late;
      }
      if ending.Fails? {
        return if clean then RolledBack else RollbackIncomplete, marked, late;
      }
      outcome, marked, late := CommitAndPublish(candidate, previousRouter, next, committed, mutation, course, marked, files0);
    }

    /** The commit stage and the swap. */
    method CommitAndPublish(candidate: Router, previousRouter: Router, next: RouterConfig, committed: string,
                            mutation: Mutation, ghost course: Course, ghost markedBefore: nat, ghost files0: Files)
      returns (outcome: Outcome, ghost marked: nat, ghost late: nat)
      requires Valid() && candidate.url < nextUrl && candidate.url in open && candidate.url != previousRouter.url
      requires activeRouter == Some(previousRouter) && course.owned == Owned() && course.authPath == authPath
      requires Follows(disk.history, course, markedBefore, |disk.history|) && markedBefore <= |disk.history|
      requires disk.txns == if markedBefore == |disk.history| then course.txns else course.markedTxns
      requires SameOutside(disk.files, course.newFiles, {authPath}) && SameOutside(disk.files, course.files, Owned())
      requires SameOutside(course.newFiles, course.files, Owned())
      requires ReadRevisions(disk.files, home) == NextRevisions(revisions, mutation)
      requires ReadDocument(disk.files, configPath) == if mutation.write then Some(committed) else ReadDocument(files0, configPath)
      requires course.undoneFiles == NewFiles(course.files, home, configPath, document, revisions, mutation.write)
      modifies `revisions, `activeRouter, `config, `document, `applied, `target, `open, `sidecarOn, disk
      ensures Valid() && outcome != NotPublished && outcome != Died
      ensures outcome == Replaced ==>
                target == Some(candidate.url) && candidate.url in open && applied == next && sidecarOn == old(sidecarOn)
      ensures Switches(outcome) ==>
                && late == |disk.history|
                && Switched(candidate, next, committed, old(revisions), files0, mutation)
                && SameOutside(disk.files, course.newFiles, {authPath})
      ensures outcome == DiedCommitting ==> target == old(target)
      ensures !Switches(outcome) ==> Views() == old(Views())
      ensures outcome.RolledBack? ==> applied == config && Undone(candidate, old(open), files0, document, revisions, mutation.write)
      ensures old(open) - {candidate.url} - (if outcome == Replaced then {previousRouter.url} else {}) <= open <= old(open)
      ensures old(disk.history) <= disk.history && disk.txns == old(disk.txns)
      ensures old(disk.Traced()) ==> disk.Traced()
      ensures Follows(disk.history, course, marked, late) && marked <= late <= |disk.history|
      ensures marked == if markedBefore == |old(disk.history)| then |disk.history| else markedBefore
      ensures SameOutside(disk.files, course.files, Owned())
    {
      hide Confined, SameOutside, Blends, Follows, Disk.Traced, NewFiles, ReadRevisions, ReadDocument, NextRevisions, Undone, Switched;
      var trouble := SomeTrouble();
      var ending, clean;
      ending, clean, marked, late := CommitOrUndo(candidate, previousRouter, next, committed, mutation, trouble, course, markedBefore, files0);
      match ending {
        case Dies =>
          outcome := DiedCommitting;
        case Fails =>
          outcome := if clean then RolledBack else RollbackIncomplete;
        case Succeeds =>
          Publish(candidate, previousRouter);
          outcome := Replaced;
      }
    }

    /** The final operation of a replacement, and what is left to do behind it. */
    method Publish(candidate: Router, previous: Router)
      modifies `target, `open
      ensures target == Some(candidate.url)
      ensures open == old(open) || open == old(open) - {previous.url}
    {
      target := Some(candidate.url);
      Retire(previous);
    }

    /** Retiring the previous router: failures are reported, never propagated. */
    method Retire(previous: Router)
      modifies `open
      ensures open == old(open) || open == old(open) - {previous.url}
    {
      var hook := Hook();
      var idle := Hook();
      var drained := Hook();
      var closed := Close(previous);
    }
  }

  /**
   An instance: the new revisions are on disk, and a credential file cannot be read
   when the commit stage asks for its fingerprint.
   */
  method DeadCommit(home: Path, configPath: Path, authPath: Path, config: RouterConfig, next: RouterConfig,
                    revisions: Revisions)
    returns (d: Daemon)
    requires configPath != RevisionsPath(home) && authPath != RevisionsPath(home) && authPath != configPath
    ensures d.Valid() && d.activeRouter == Some(Router(1, next)) && d.target == Some(0) && 0 in d.open && !d.Published()
    ensures d.config == next && d.revisions == NextRevisions(revisions, Mutation(false, true, true, NoPersist))
  {
    hide Confined, Blends, Disk.Traced;
    var mutation := Mutation(false, true, true, NoPersist);
    var files := NewFiles(map[], home, configPath, config.rendered, NextRevisions(revisions, mutation), true);
    var disk := new Disk(files, map[]);
    d := new Daemon(disk, home, configPath, authPath, true, config, config.rendered, revisions, config.sidecar);
    d.activeRouter, d.target, d.open, d.nextUrl := Some(Router(0, config)), Some(0), {0, 1}, 2;
    ghost var course := d.CourseOf(next, mutation);
    FollowsNothing(disk.history, course);
    assert files[RevisionsPath(home)] == RevisionsFile(NextRevisions(revisions, mutation));
    assert files[RevisionsPath(home) := files[RevisionsPath(home)]] == files;
    ghost var marked, late;
    var r, clean;
    r, clean, marked, late := d.CommitOrUndo(Router(1, next), Router(0, config), next, config.rendered, mutation,
                                             Trouble(false, true), course, |disk.history|, files);
  }

  function Marked(txns: map<Name, Directory>, persist: Persist): map<Name, Directory> {
    if persist.Activation? && persist.transaction.directory in txns then
      WithManifest(txns, persist.transaction.directory, persist.transaction.manifest.(state := Committed))
    else txns
  }
}
