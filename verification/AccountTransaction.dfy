/**
 Crash-safe account transactions (packages/daemon/src/account-transaction.ts).

 The file system is a map from absolute paths to files, plus the transaction
 directories below `<home>/account-transactions`. Every durable step is one
 atomic change of that state, and `Disk.history` remembers every state the disk
 has passed through: a crash leaves exactly one of them behind.
 */
module AccountTransaction {
  import opened Wrappers

  /** An absolute, normalised path, split at its separators. */
  type Path = seq<string>

  /** A transaction directory's name, represented by its rank in sorted order. */
  type Name = nat

  datatype Content =
    | Text(text: string)
    | RevisionNumbers(config: int, accounts: int, daemon: int)

  datatype File = File(content: Content, mode: nat)

  /** SHA-256 as an injective tag. */
  datatype Digest = Sha256(of: Content)

  datatype Role = AccountRole | ConfigRole | RevisionsRole

  datatype TransactionFile = TransactionFile(
    role: Role,
    root: Option<Path>,
    relativePath: Option<Path>,
    existed: bool,
    backup: Option<nat>,
    sha256: Option<Digest>,
    mode: Option<nat>)

  datatype Phase = Prepared | Committed

  datatype Manifest = Manifest(state: Phase, configPath: Path, files: seq<TransactionFile>)

  datatype ManifestFile = Missing | Malformed | Stored(manifest: Manifest)

  datatype Directory = Directory(backups: map<nat, Content>, manifest: ManifestFile)

  type Files = map<Path, File>

  datatype DiskState = DiskState(files: Files, txns: map<Name, Directory>)

  datatype Transaction = Transaction(directory: Name, manifest: Manifest)

  const DEFAULT_MODE: nat := 384 // 0o600

  // ---- Paths ----

  function RevisionsPath(home: Path): Path {
    home + ["daemon-revisions.json"]
  }

  /** The path of `path` below `root`; an error unless it lies strictly inside. */
  function AccountRelativePath(root: Path, path: Path): (r: Result<Path>)
    ensures r.Ok? <==> root < path
    ensures r.Ok? ==> root + r.value == path
  {
    if root < path then Ok(path[|root|..])
    else Err("account transaction target must be inside its account root")
  }

  function TargetPath(file: TransactionFile, home: Path, manifest: Manifest): Result<Path> {
    match file.role
    case ConfigRole => Ok(manifest.configPath)
    case RevisionsRole => Ok(RevisionsPath(home))
    case AccountRole =>
      if file.root.None? || file.relativePath.None? then
        Err("account transaction manifest has no account path")
      else
        var path := file.root.value + file.relativePath.value;
        var _ :- AccountRelativePath(file.root.value, path);
        Ok(path)
  }

  // ---- What restoring a transaction writes ----

  /** One restoring write: the target gets a file back, or is removed. */
  datatype Write = Write(path: Path, file: Option<File>)

  function RestoreWrite(dir: Directory, manifest: Manifest, home: Path, file: TransactionFile): Result<Write> {
    var path :- TargetPath(file, home, manifest);
    if !file.existed then Ok(Write(path, None))
    else if file.backup.None? || file.sha256.None? then
      Err("account transaction backup metadata is incomplete")
    else if file.backup.value !in dir.backups then
      Err("account transaction backup is missing")
    else if Sha256(dir.backups[file.backup.value]) != file.sha256.value then
      Err("account transaction backup failed integrity validation")
    else
      Ok(Write(path, Some(File(dir.backups[file.backup.value], file.mode.GetOr(DEFAULT_MODE)))))
  }

  function Apply(files: Files, w: Write): Files {
    if w.file.Some? then files[w.path := w.file.value] else files - {w.path}
  }

  function ApplyAll(files: Files, writes: seq<Write>): Files
    decreases |writes|
  {
    if writes == [] then files else ApplyAll(Apply(files, writes[0]), writes[1..])
  }

  /** The restoring writes, in order, up to the first file whose backup cannot be trusted. */
  function RestoreWrites(dir: Directory, manifest: Manifest, home: Path,
                         files: seq<TransactionFile>): (r: (seq<Write>, bool))
    ensures |r.0| <= |files|
    ensures r.1 <==> |r.0| == |files|
    ensures forall i | 0 <= i < |r.0| :: RestoreWrite(dir, manifest, home, files[i]) == Ok(r.0[i])
    ensures !r.1 ==> RestoreWrite(dir, manifest, home, files[|r.0|]).Err?
  {
    if files == [] then ([], true)
    else
      var w := RestoreWrite(dir, manifest, home, files[0]);
      if w.Err? then ([], false)
      else
        var rest := RestoreWrites(dir, manifest, home, files[1..]);
        ([w.value] + rest.0, rest.1)
  }

  predicate Touches(writes: seq<Write>, p: Path) {
    exists i | 0 <= i < |writes| :: writes[i].path == p
  }

  lemma TouchesPart(writes: seq<Write>, from: nat, to: nat, p: Path)
    requires from <= to <= |writes|
    ensures Touches(writes[from..to], p) ==> Touches(writes, p)
  {
    if Touches(writes[from..to], p) {
      var i :| 0 <= i < to - from && writes[from..to][i].path == p;
      assert writes[from + i].path == p;
    }
  }

  ghost predicate SameAt(a: Files, b: Files, p: Path) {
    (p in a <==> p in b) && (p in a ==> a[p] == b[p])
  }

  ghost predicate SameOutside(a: Files, b: Files, paths: set<Path>) {
    forall p | p !in paths :: SameAt(a, b, p)
  }

  lemma TouchesHead(writes: seq<Write>, p: Path)
    requires writes != []
    ensures Touches(writes, p) <==> writes[0].path == p || Touches(writes[1..], p)
  {
    TouchesPart(writes, 1, |writes|, p);
    if Touches(writes, p) {
      var i :| 0 <= i < |writes| && writes[i].path == p;
      if i > 0 {
        assert writes[1..][i - 1].path == p;
      }
    }
  }

  lemma SameEverywhere(a: Files, b: Files)
    requires forall p :: SameAt(a, b, p)
    ensures a == b
  {
    forall p ensures p in a <==> p in b {
      assert SameAt(a, b, p);
    }
    forall p | p in a ensures a[p] == b[p] {
      assert SameAt(a, b, p);
    }
  }

  /** Replaying a list of writes forgets what the touched files held before. */
  lemma {:induction false} ReplayForgets(a: Files, b: Files, writes: seq<Write>)
    requires forall p | !Touches(writes, p) :: SameAt(a, b, p)
    ensures ApplyAll(a, writes) == ApplyAll(b, writes)
    decreases |writes|
  {
    if writes == [] {
      forall p ensures SameAt(a, b, p) {
        assert !Touches(writes, p);
      }
      SameEverywhere(a, b);
    } else {
      var a', b' := Apply(a, writes[0]), Apply(b, writes[0]);
      forall p | !Touches(writes[1..], p) ensures SameAt(a', b', p) {
        TouchesHead(writes, p);
      }
      ReplayForgets(a', b', writes[1..]);
    }
  }

  lemma {:induction false} ApplyAllFrame(files: Files, writes: seq<Write>, p: Path)
    requires !Touches(writes, p)
    ensures SameAt(ApplyAll(files, writes), files, p)
    decreases |writes|
  {
    if writes != [] {
      TouchesHead(writes, p);
      ApplyAllFrame(Apply(files, writes[0]), writes[1..], p);
    }
  }

  lemma {:induction false} ApplyAllSnoc(files: Files, writes: seq<Write>, w: Write)
    ensures ApplyAll(files, writes + [w]) == Apply(ApplyAll(files, writes), w)
    decreases |writes|
  {
    if writes == [] {
      assert (writes + [w])[1..] == [];
    } else {
      assert (writes + [w])[1..] == writes[1..] + [w];
      ApplyAllSnoc(Apply(files, writes[0]), writes[1..], w);
    }
  }

  /** A restore that was cut short and is run again ends where one uninterrupted restore ends. */
  lemma RestoreAgain(files: Files, writes: seq<Write>, k: nat)
    requires k <= |writes|
    ensures ApplyAll(ApplyAll(files, writes[..k]), writes) == ApplyAll(files, writes)
  {
    forall p | !Touches(writes, p) ensures SameAt(ApplyAll(files, writes[..k]), files, p) {
      TouchesPart(writes, 0, k, p);
      assert writes[0..k] == writes[..k];
      ApplyAllFrame(files, writes[..k], p);
    }
    ReplayForgets(ApplyAll(files, writes[..k]), files, writes);
  }

  // ---- Recovery as a function of the disk ----

  datatype Recovery = Recovery(disk: DiskState, ok: bool)

  lemma {:induction false} Least(s: set<nat>) returns (m: nat)
    requires s != {}
    ensures m in s && forall x | x in s :: m <= x
    decreases s
  {
    m :| m in s;
    if s != {m} {
      var rest := Least(s - {m});
      assert forall x | x in s :: x == m || x in s - {m};
      if rest < m { m := rest; }
    }
  }

  ghost function First(s: set<nat>): (m: nat)
    requires s != {}
    ensures m in s && forall x | x in s :: m <= x
  {
    assert exists m :: m in s && forall x | x in s :: m <= x by {
      var m := Least(s);
    }
    var m :| m in s && forall x | x in s :: m <= x;
    m
  }

  function Without(d: DiskState, n: Name): DiskState {
    d.(txns := d.txns - {n})
  }

  /** Recovery takes the directories in order of name and stops at the first one it cannot trust. */
  ghost function Recover(d: DiskState, home: Path): Recovery
    decreases |d.txns|
  {
    if d.txns == map[] then Recovery(d, true)
    else
      var n := First(d.txns.Keys);
      assert d.txns.Keys == (d.txns - {n}).Keys + {n};
      match d.txns[n].manifest
      case Missing => Recover(Without(d, n), home)
      case Malformed => Recovery(d, false)
      case Stored(manifest) =>
        if manifest.state == Committed then Recover(Without(d, n), home)
        else
          var (writes, ok) := RestoreWrites(d.txns[n], manifest, home, manifest.files);
          var restored := d.(files := ApplyAll(d.files, writes));
          if ok then Recover(Without(restored, n), home) else Recovery(restored, false)
  }

  /** Recovering from any cut inside the restoration of the first directory gives the same result. */
  lemma RecoverAgain(d: DiskState, home: Path, k: nat)
    requires d.txns != map[]
    requires var dir := d.txns[First(d.txns.Keys)];
             dir.manifest.Stored? && dir.manifest.manifest.state == Prepared
             && k <= |RestoreWrites(dir, dir.manifest.manifest, home, dir.manifest.manifest.files).0|
    ensures var dir := d.txns[First(d.txns.Keys)];
            var writes := RestoreWrites(dir, dir.manifest.manifest, home, dir.manifest.manifest.files).0;
            Recover(d.(files := ApplyAll(d.files, writes[..k])), home) == Recover(d, home)
  {
    var dir := d.txns[First(d.txns.Keys)];
    var writes := RestoreWrites(dir, dir.manifest.manifest, home, dir.manifest.manifest.files).0;
    RestoreAgain(d.files, writes, k);
  }

  // ---- Which states are safe ----

  predicate Harmless(dir: Directory) {
    dir.manifest.Missing? || (dir.manifest.Stored? && dir.manifest.manifest.state == Committed)
  }

  /** No transaction waits to be rolled back. */
  ghost predicate Quiet(d: DiskState) {
    forall n | n in d.txns :: Harmless(d.txns[n])
  }

  /** Recovery succeeds and leaves exactly `files`. */
  ghost predicate RecoversTo(d: DiskState, home: Path, files: Files) {
    Recover(d, home) == Recovery(DiskState(files, map[]), true)
  }

  /** Every disk state from `from` on recovers to `files`, so a crash in any of them does. */
  ghost predicate AllRecoverTo(history: seq<DiskState>, from: nat, home: Path, files: Files) {
    forall i | from <= i < |history| :: RecoversTo(history[i], home, files)
  }

  lemma {:induction false} QuietRecovers(d: DiskState, home: Path)
    requires Quiet(d)
    ensures RecoversTo(d, home, d.files)
    decreases |d.txns|
  {
    if d.txns != map[] {
      var n := First(d.txns.Keys);
      assert d.txns.Keys == (d.txns - {n}).Keys + {n};
      QuietRecovers(Without(d, n), home);
    }
  }

  /** The paths a manifest restores. */
  ghost predicate Covers(manifest: Manifest, home: Path, p: Path) {
    exists i | 0 <= i < |manifest.files| :: TargetPath(manifest.files[i], home, manifest) == Ok(p)
  }

  /** Every file of the manifest can be restored, and gets back what `base` holds for it. */
  ghost predicate Intact(dir: Directory, manifest: Manifest, home: Path, base: Files) {
    forall i | 0 <= i < |manifest.files| :: RestoresTo(dir, manifest, home, base, manifest.files[i])
  }

  ghost predicate RestoresTo(dir: Directory, manifest: Manifest, home: Path, base: Files, file: TransactionFile) {
    var w := RestoreWrite(dir, manifest, home, file);
    w.Ok? && w.value.file == if w.value.path in base then Some(base[w.value.path]) else None
  }

  /** Transaction `n` is prepared and can take the disk back to `base`; nothing else is pending. */
  ghost predicate Armed(d: DiskState, n: Name, manifest: Manifest, home: Path, base: Files) {
    && n in d.txns
    && (forall k | k in d.txns && k != n :: Harmless(d.txns[k]))
    && d.txns[n].manifest == Stored(manifest)
    && manifest.state == Prepared
    && Intact(d.txns[n], manifest, home, base)
    && forall p | !Covers(manifest, home, p) :: SameAt(d.files, base, p)
  }

  lemma IntactWrites(dir: Directory, manifest: Manifest, home: Path, base: Files)
    requires Intact(dir, manifest, home, base)
    ensures RestoreWrites(dir, manifest, home, manifest.files).1
    ensures forall i | 0 <= i < |manifest.files| ::
              var w := RestoreWrites(dir, manifest, home, manifest.files).0[i];
              && TargetPath(manifest.files[i], home, manifest) == Ok(w.path)
              && w.file == if w.path in base then Some(base[w.path]) else None
  {
    var (writes, ok) := RestoreWrites(dir, manifest, home, manifest.files);
    assert ok || RestoresTo(dir, manifest, home, base, manifest.files[|writes|]);
    forall i | 0 <= i < |manifest.files|
      ensures TargetPath(manifest.files[i], home, manifest) == Ok(writes[i].path)
      ensures writes[i].file == if writes[i].path in base then Some(base[writes[i].path]) else None
    {
      assert RestoresTo(dir, manifest, home, base, manifest.files[i]);
    }
  }

  /** Writes that each put back what `base` holds make every path they touch agree with `base`. */
  lemma {:induction false} WritesReach(files: Files, writes: seq<Write>, base: Files, p: Path)
    requires forall i | 0 <= i < |writes| ::
               writes[i].file == if writes[i].path in base then Some(base[writes[i].path]) else None
    requires Touches(writes, p) || SameAt(files, base, p)
    ensures SameAt(ApplyAll(files, writes), base, p)
    decreases |writes|
  {
    if writes != [] {
      TouchesHead(writes, p);
      WritesReach(Apply(files, writes[0]), writes[1..], base, p);
    }
  }

  /** A prepared, intact transaction takes the disk back to the files it was prepared on. */
  lemma {:induction false} ArmedRecovers(d: DiskState, n: Name, manifest: Manifest, home: Path, base: Files)
    requires Armed(d, n, manifest, home, base)
    ensures RecoversTo(d, home, base)
    decreases |d.txns|
  {
    var m := First(d.txns.Keys);
    assert d.txns.Keys == (d.txns - {m}).Keys + {m};
    if m == n {
      var writes := RestoreWrites(d.txns[n], manifest, home, manifest.files).0;
      IntactWrites(d.txns[n], manifest, home, base);
      var restored := ApplyAll(d.files, writes);
      forall p ensures SameAt(restored, base, p) {
        if Covers(manifest, home, p) {
          var i :| 0 <= i < |manifest.files| && TargetPath(manifest.files[i], home, manifest) == Ok(p);
          assert writes[i].path == p;
        }
        WritesReach(d.files, writes, base, p);
      }
      SameEverywhere(restored, base);
      QuietRecovers(Without(d.(files := base), n), home);
    } else {
      ArmedRecovers(Without(d, m), n, manifest, home, base);
    }
  }

  // ---- The disk ----

  ghost predicate OneFile(a: Files, b: Files) {
    exists p :: SameOutside(a, b, {p})
  }

  ghost predicate OneFileSteps(history: seq<DiskState>) {
    forall i | 0 < i < |history| :: OneFile(history[i - 1].files, history[i].files)
  }

  lemma NextStep(history: seq<DiskState>, next: DiskState, path: Path)
    ensures history != [] && OneFileSteps(history) && SameOutside(history[|history| - 1].files, next.files, {path}) ==>
              OneFileSteps(history + [next])
  {
    if history != [] && OneFileSteps(history) && SameOutside(history[|history| - 1].files, next.files, {path}) {
      forall i | 0 < i <= |history| ensures OneFile((history + [next])[i - 1].files, (history + [next])[i].files) {
        if i < |history| { assert OneFile(history[i - 1].files, history[i].files); }
      }
    }
  }

  class Disk {
    var files: Files
    var txns: map<Name, Directory>
    ghost var history: seq<DiskState>

    ghost function State(): DiskState
      reads this
    {
      DiskState(files, txns)
    }

    /** The history ends with the current state, and no step changed more than one file. */
    ghost predicate Traced()
      reads this
    {
      history != [] && history[|history| - 1] == State() && OneFileSteps(history)
    }

    constructor (files: Files, txns: map<Name, Directory>)
      ensures State() == DiskState(files, txns) && history == [State()] && Traced()
    {
      this.files := files;
      this.txns := txns;
      history := [DiskState(files, txns)];
    }

    /** An atomic write followed by a chmod: it can fail before the write or after it. */
    method WriteFile(path: Path, file: File) returns (ok: bool)
      modifies this
      ensures history == old(history) + [State()]
      ensures old(Traced()) ==> Traced()
      ensures txns == old(txns)
      ensures files == old(files)[path := file] || (!ok && files == old(files))
    {
      if * {
        ok := false;
      } else {
        files := files[path := file];
        if * { ok := false; } else { ok := true; }
      }
      NextStep(history, State(), path);
      history := history + [State()];
    }

    method RemoveFile(path: Path) returns (ok: bool)
      modifies this
      ensures history == old(history) + [State()]
      ensures old(Traced()) ==> Traced()
      ensures txns == old(txns)
      ensures files == if ok then old(files) - {path} else old(files)
    {
      if * {
        ok := false;
      } else {
        files := files - {path};
        ok := true;
      }
      NextStep(history, State(), path);
      history := history + [State()];
    }

    /** Creates an empty directory under a name nobody uses. */
    method MakeDirectory() returns (name: Name, ok: bool)
      modifies this
      ensures history == old(history) + [State()]
      ensures old(Traced()) ==> Traced()
      ensures files == old(files)
      ensures name !in old(txns)
      ensures txns == if ok then old(txns)[name := Directory(map[], Missing)] else old(txns)
    {
      ghost var keys := txns.Keys;
      name := FreshName(txns.Keys);
      if * {
        ok := false;
      } else {
        txns := txns[name := Directory(map[], Missing)];
        ok := true;
      }
      NextStep(history, State(), []);
      history := history + [State()];
    }

    method WriteBackup(name: Name, index: nat, content: Content) returns (ok: bool)
      requires name in txns
      modifies this
      ensures history == old(history) + [State()]
      ensures old(Traced()) ==> Traced()
      ensures files == old(files)
      ensures txns == old(txns) || txns == old(txns)[name := WithBackup(old(txns)[name], index, content)]
      ensures ok ==> txns == old(txns)[name := WithBackup(old(txns)[name], index, content)]
    {
      if * {
        ok := false;
      } else {
        txns := txns[name := WithBackup(txns[name], index, content)];
        if * { ok := false; } else { ok := true; }
      }
      NextStep(history, State(), []);
      history := history + [State()];
    }

    /** Fails when the directory is gone, and may fail before the write or after it. */
    method WriteManifest(name: Name, manifest: Manifest) returns (ok: bool)
      modifies this
      ensures history == old(history) + [State()]
      ensures old(Traced()) ==> Traced()
      ensures files == old(files)
      ensures ok ==> name in old(txns)
      ensures txns == old(txns) || (name in old(txns) && txns == WithManifest(old(txns), name, manifest))
      ensures ok ==> txns == WithManifest(old(txns), name, manifest)
    {
      if name !in txns {
        ok := false;
      } else if * {
        ok := false;
      } else {
        txns := WithManifest(txns, name, manifest);
        if * { ok := false; } else { ok := true; }
      }
      NextStep(history, State(), []);
      history := history + [State()];
    }

    method RemoveDirectory(name: Name) returns (ok: bool)
      modifies this
      ensures history == old(history) + [State()]
      ensures old(Traced()) ==> Traced()
      ensures files == old(files)
      ensures txns == if ok then old(txns) - {name} else old(txns)
    {
      if * {
        ok := false;
      } else {
        txns := txns - {name};
        ok := true;
      }
      NextStep(history, State(), []);
      history := history + [State()];
    }
  }

  /** A name larger than every name in use stands for a fresh UUID. */
  method FreshName(names: set<Name>) returns (name: Name)
    ensures name !in names
  {
    name := 0;
    var left := names;
    while left != {}
      invariant left <= names
      invariant forall n | n in names - left :: n < name
      decreases left
    {
      var n :| n in left;
      assert names - (left - {n}) == names - left + {n};
      if name <= n { name := n + 1; }
      left := left - {n};
    }
    assert names - left == names;
  }

  function WithBackup(dir: Directory, index: nat, content: Content): Directory {
    dir.(backups := dir.backups[index := content])
  }

  function WithManifest(txns: map<Name, Directory>, name: Name, manifest: Manifest): map<Name, Directory>
    requires name in txns
  {
    txns[name := txns[name].(manifest := Stored(manifest))]
  }

  // ---- Preparing ----

  datatype Descriptor = Descriptor(role: Role, path: Path, root: Option<Path>, relativePath: Option<Path>)

  /** The first allowed root that strictly contains `path`. */
  function FindRoot(roots: seq<Path>, path: Path): (r: Option<Path>)
    ensures r.Some? ==> r.value in roots && r.value < path
    ensures r.None? ==> forall root | root in roots :: !(root < path)
  {
    if roots == [] then None
    else if AccountRelativePath(roots[0], path).Ok? then Some(roots[0])
    else
      assert roots == [roots[0]] + roots[1..];
      FindRoot(roots[1..], path)
  }

  ghost predicate Targets(targets: seq<Descriptor>, p: Path) {
    exists d | d in targets :: d.path == p
  }

  ghost predicate Describes(d: Descriptor, path: Path, home: Path, configPath: Path) {
    && d.path == path
    && forall existed, backup, sha256, mode, phase, files ::
         TargetPath(TransactionFile(d.role, d.root, d.relativePath, existed, backup, sha256, mode), home,
                    Manifest(phase, configPath, files)) == Ok(path)
  }

  /** The targets of a transaction: the distinct account paths, then config and revisions. */
  method DescribeTargets(home: Path, configPath: Path, accountPaths: seq<Path>, accountRoots: seq<Path>)
    returns (r: Result<seq<Descriptor>>)
    ensures r.Err? <==> exists p | p in accountPaths :: forall root | root in [home] + accountRoots :: !(root < p)
    ensures r.Ok? ==> forall d | d in r.value :: Describes(d, d.path, home, configPath)
    ensures r.Ok? ==> forall p :: Targets(r.value, p)
                                  <==> p in accountPaths || p == configPath || p == RevisionsPath(home)
  {
    var roots := [home] + accountRoots;
    var descriptors: seq<Descriptor> := [];
    for i := 0 to |accountPaths|
      invariant forall d | d in descriptors :: Describes(d, d.path, home, configPath)
      invariant forall d | d in descriptors :: d.path in accountPaths[..i]
      invariant forall p | p in accountPaths[..i] :: exists d | d in descriptors :: d.path == p
      invariant forall p | p in accountPaths[..i] :: exists root | root in roots :: root < p
    {
      var path := accountPaths[i];
      assert accountPaths[..i + 1] == accountPaths[..i] + [path];
      if path !in accountPaths[..i] {
        var root := FindRoot(roots, path);
        if root.None? {
          assert path in accountPaths;
          return Err("account transaction target has no allowed account root");
        }
        var relative := AccountRelativePath(root.value, path);
        var descriptor := Descriptor(AccountRole, path, root, Some(relative.value));
        ghost var before := descriptors;
        descriptors := descriptors + [descriptor];
        assert descriptor in descriptors;
        assert forall d | d in before :: d in descriptors;
        assert root.value in roots;
      }
    }
    assert accountPaths[..|accountPaths|] == accountPaths;
    var config := Descriptor(ConfigRole, configPath, None, None);
    var revisions := Descriptor(RevisionsRole, RevisionsPath(home), None, None);
    ghost var accounts := descriptors;
    descriptors := descriptors + [config, revisions];
    assert forall d :: d in descriptors <==> d in accounts || d == config || d == revisions;
    return Ok(descriptors);
  }

  /** `file` records what `files` holds at the descriptor's path, with its backup in `dir`. */
  ghost predicate Saves(dir: Directory, home: Path, configPath: Path, files: Files, d: Descriptor,
                        file: TransactionFile) {
    RestoreWrite(dir, Manifest(Prepared, configPath, []), home, file)
      == Ok(Write(d.path, if d.path in files then Some(files[d.path]) else None))
  }

  ghost predicate AllSaved(dir: Directory, home: Path, configPath: Path, files: Files,
                           targets: seq<Descriptor>, saved: seq<TransactionFile>) {
    |saved| <= |targets|
    && (forall i | 0 <= i < |saved| :: saved[i].backup.Some? ==> saved[i].backup.value < |saved|)
    && forall i | 0 <= i < |saved| :: Saves(dir, home, configPath, files, targets[i], saved[i])
  }

  /** Copies every existing target into the directory, and records which targets did not exist. */
  method SaveTargets(disk: Disk, name: Name, targets: seq<Descriptor>, home: Path, configPath: Path)
    returns (saved: seq<TransactionFile>, ok: bool)
    requires name in disk.txns && disk.txns[name].manifest == Missing
    requires forall d | d in targets :: Describes(d, d.path, home, configPath)
    modifies disk
    ensures old(disk.history) <= disk.history
    ensures old(disk.Traced()) ==> disk.Traced()
    ensures disk.files == old(disk.files)
    ensures name in disk.txns && disk.txns[name].manifest == Missing
    ensures disk.txns == old(disk.txns)[name := disk.txns[name]]
    ensures Quiet(old(disk.State())) ==> AllRecoverTo(disk.history, |old(disk.history)|, home, old(disk.files))
    ensures ok ==> |saved| == |targets| && AllSaved(disk.txns[name], home, configPath, disk.files, targets, saved)
  {
    hide RecoversTo;
    saved := [];
    for index := 0 to |targets|
      invariant |saved| == index
      invariant disk.files == old(disk.files) && name in disk.txns && disk.txns[name].manifest == Missing
      invariant disk.txns == old(disk.txns)[name := disk.txns[name]]
      invariant old(disk.history) <= disk.history
      invariant old(disk.Traced()) ==> disk.Traced()
      invariant Quiet(old(disk.State())) ==> AllRecoverTo(disk.history, |old(disk.history)|, home, old(disk.files))
      invariant AllSaved(disk.txns[name], home, configPath, disk.files, targets, saved)
    {
      var target := targets[index];
      assert Describes(target, target.path, home, configPath);
      if target.path !in disk.files {
        var file := TransactionFile(target.role, target.root, target.relativePath, false, None, None, None);
        assert Saves(disk.txns[name], home, configPath, disk.files, target, file);
        saved := saved + [file];
      } else {
        var stored := disk.files[target.path];
        ghost var dir := disk.txns[name];
        ok := disk.WriteBackup(name, index, stored.content);
        if Quiet(old(disk.State())) { QuietRecovers(disk.State(), home); }
        if !ok {
          return saved, false;
        }
        var file := TransactionFile(target.role, target.root, target.relativePath, true,
                                    Some(index), Some(Sha256(stored.content)), Some(stored.mode));
        forall i | 0 <= i < index ensures Saves(disk.txns[name], home, configPath, disk.files, targets[i], saved[i]) {
          assert Saves(dir, home, configPath, disk.files, targets[i], saved[i]);
        }
        assert Saves(disk.txns[name], home, configPath, disk.files, target, file);
        saved := saved + [file];
      }
    }
    ok := true;
  }

  method Prepare(disk: Disk, home: Path, configPath: Path, accountPaths: seq<Path>, accountRoots: seq<Path>)
    returns (r: Result<Transaction>)
    modifies disk
    ensures old(disk.history) <= disk.history
    ensures old(disk.Traced()) ==> disk.Traced()
    ensures disk.files == old(disk.files)
    // A crash or a failure at any point of the preparation loses nothing.
    ensures Quiet(old(disk.State())) ==> AllRecoverTo(disk.history, |old(disk.history)|, home, old(disk.files))
    ensures r.Ok? ==> r.value.manifest.state == Prepared && r.value.directory in disk.txns
    ensures r.Ok? && Quiet(old(disk.State())) ==>
              Armed(disk.State(), r.value.directory, r.value.manifest, home, old(disk.files))
    ensures r.Ok? ==> forall p :: Covers(r.value.manifest, home, p)
                                  <==> p in accountPaths || p == configPath || p == RevisionsPath(home)
    ensures (exists p | p in accountPaths :: forall root | root in [home] + accountRoots :: !(root < p)) ==> r.Err?
  {
    hide RecoversTo, Armed, AllSaved, Covers;
    var name, ok := disk.MakeDirectory();
    if Quiet(old(disk.State())) { QuietRecovers(disk.State(), home); }
    if !ok { return Err("account transaction directory could not be created"); }
    var described := DescribeTargets(home, configPath, accountPaths, accountRoots);
    if described.Err? { return Err(described.message); }
    var targets := described.value;
    var files;
    files, ok := SaveTargets(disk, name, targets, home, configPath);
    if !ok {
      var removed := disk.RemoveDirectory(name);
      if Quiet(old(disk.State())) { QuietRecovers(disk.State(), home); }
      return Err("account transaction backup failed");
    }
    r := WritePrepareRecord(disk, name, targets, files, home, configPath);
    if r.Ok? {
      forall p ensures Covers(r.value.manifest, home, p) <==> p in accountPaths || p == configPath || p == RevisionsPath(home) {
        assert Covers(r.value.manifest, home, p) <==> Targets(targets, p);
      }
    }
  }

  /** The prepare record is written only after every backup; if that fails the directory is removed. */
  method WritePrepareRecord(disk: Disk, name: Name, targets: seq<Descriptor>, saved: seq<TransactionFile>, home: Path,
                            configPath: Path)
    returns (r: Result<Transaction>)
    requires name in disk.txns && disk.txns[name].manifest == Missing
    requires |saved| == |targets| && AllSaved(disk.txns[name], home, configPath, disk.files, targets, saved)
    modifies disk
    ensures old(disk.history) <= disk.history
    ensures old(disk.Traced()) ==> disk.Traced()
    ensures disk.files == old(disk.files)
    ensures Quiet(old(disk.State())) ==> AllRecoverTo(disk.history, |old(disk.history)|, home, old(disk.files))
    ensures r.Ok? ==> r.value == Transaction(name, Manifest(Prepared, configPath, saved)) && name in disk.txns
    ensures r.Ok? && Quiet(old(disk.State())) ==> Armed(disk.State(), name, r.value.manifest, home, old(disk.files))
    ensures r.Ok? ==> forall p :: Covers(r.value.manifest, home, p) <==> Targets(targets, p)
  {
    hide RecoversTo, Armed, AllSaved;
    var manifest := Manifest(Prepared, configPath, saved);
    ghost var dir := disk.txns[name];
    PreparedCovers(dir, home, configPath, disk.files, targets, saved);
    var ok := disk.WriteManifest(name, manifest);
    if Quiet(old(disk.State())) {
      if disk.txns == old(disk.txns) {
        QuietRecovers(disk.State(), home);
      } else {
        PreparedArmed(disk.State(), name, dir, home, configPath, targets, saved);
        ArmedRecovers(disk.State(), name, manifest, home, disk.files);
      }
    }
    if ok {
      r := Ok(Transaction(name, manifest));
    } else {
      var removed := disk.RemoveDirectory(name);
      if Quiet(old(disk.State())) && removed { QuietRecovers(disk.State(), home); }
      r := Err("account transaction manifest could not be written");
    }
  }

  lemma PreparedArmed(d: DiskState, name: Name, dir: Directory, home: Path, configPath: Path,
                      targets: seq<Descriptor>, saved: seq<TransactionFile>)
    requires name in d.txns
    requires d.txns[name] == dir.(manifest := Stored(Manifest(Prepared, configPath, saved)))
    requires forall k | k in d.txns && k != name :: Harmless(d.txns[k])
    requires |saved| == |targets| && AllSaved(dir, home, configPath, d.files, targets, saved)
    ensures Armed(d, name, Manifest(Prepared, configPath, saved), home, d.files)
  {
    var manifest := Manifest(Prepared, configPath, saved);
    forall i | 0 <= i < |saved| ensures RestoresTo(d.txns[name], manifest, home, d.files, saved[i]) {
      assert Saves(dir, home, configPath, d.files, targets[i], saved[i]);
    }
  }

  lemma PreparedCovers(dir: Directory, home: Path, configPath: Path, base: Files, targets: seq<Descriptor>,
                       files: seq<TransactionFile>)
    requires |targets| == |files| && AllSaved(dir, home, configPath, base, targets, files)
    ensures forall p :: Covers(Manifest(Prepared, configPath, files), home, p) <==> Targets(targets, p)
  {
    var manifest := Manifest(Prepared, configPath, files);
    forall i | 0 <= i < |files| ensures TargetPath(files[i], home, manifest) == Ok(targets[i].path) {
      assert Saves(dir, home, configPath, base, targets[i], files[i]);
    }
    forall p ensures Covers(manifest, home, p) <==> Targets(targets, p) {
      if Covers(manifest, home, p) {
        var i :| 0 <= i < |manifest.files| && TargetPath(manifest.files[i], home, manifest) == Ok(p);
        assert targets[i] in targets;
      }
      if d :| d in targets && d.path == p {
        var i :| 0 <= i < |targets| && targets[i] == d;
        assert TargetPath(manifest.files[i], home, manifest) == Ok(p);
      }
    }
  }

  // ---- Restoring ----

  /** The first `k` restoring writes have been made. */
  ghost predicate RestoredUpTo(d: DiskState, start: DiskState, writes: seq<Write>, k: nat) {
    k <= |writes| && d == start.(files := ApplyAll(start.files, writes[..k]))
  }

  ghost predicate PartlyRestored(d: DiskState, start: DiskState, writes: seq<Write>) {
    exists k :: RestoredUpTo(d, start, writes, k)
  }

  ghost function WritesOf(d: DiskState, transaction: Transaction, home: Path): seq<Write>
    requires transaction.directory in d.txns
  {
    RestoreWrites(d.txns[transaction.directory], transaction.manifest, home, transaction.manifest.files).0
  }

  ghost predicate Restorable(d: DiskState, transaction: Transaction, home: Path)
    requires transaction.directory in d.txns
  {
    RestoreWrites(d.txns[transaction.directory], transaction.manifest, home, transaction.manifest.files).1
  }

  ghost function Restored(d: DiskState, transaction: Transaction, home: Path): DiskState
    requires transaction.directory in d.txns
  {
    d.(files := ApplyAll(d.files, WritesOf(d, transaction, home)))
  }

  /** Restores the files one by one; stops where a backup cannot be trusted or a write fails. */
  method RestorePrepared(disk: Disk, transaction: Transaction, home: Path) returns (ok: bool)
    requires transaction.directory in disk.txns
    modifies disk
    ensures old(disk.history) <= disk.history
    ensures old(disk.Traced()) ==> disk.Traced()
    ensures PartlyRestored(disk.State(), old(disk.State()), WritesOf(old(disk.State()), transaction, home))
    ensures forall i | |old(disk.history)| <= i < |disk.history| ::
              PartlyRestored(disk.history[i], old(disk.State()), WritesOf(old(disk.State()), transaction, home))
    ensures ok ==> Restorable(old(disk.State()), transaction, home)
                   && disk.State() == Restored(old(disk.State()), transaction, home)
  {
    var manifest := transaction.manifest;
    var dir := disk.txns[transaction.directory];
    ghost var writes := WritesOf(disk.State(), transaction, home);
    assert RestoredUpTo(disk.State(), disk.State(), writes, 0);
    for index := 0 to |manifest.files|
      invariant index <= |writes|
      invariant RestoredUpTo(disk.State(), old(disk.State()), writes, index)
      invariant old(disk.history) <= disk.history
      invariant old(disk.Traced()) ==> disk.Traced()
      invariant forall i | |old(disk.history)| <= i < |disk.history| ::
                  PartlyRestored(disk.history[i], old(disk.State()), writes)
    {
      var restore := RestoreWrite(dir, manifest, home, manifest.files[index]);
      if restore.Err? {
        return false;
      }
      assert index < |writes| && writes[index] == restore.value;
      assert writes[..index + 1] == writes[..index] + [writes[index]];
      ApplyAllSnoc(old(disk.files), writes[..index], writes[index]);
      if restore.value.file.None? {
        ok := disk.RemoveFile(restore.value.path);
      } else {
        ok := disk.WriteFile(restore.value.path, restore.value.file.value);
      }
      assert RestoredUpTo(disk.State(), old(disk.State()), writes, index)
             || RestoredUpTo(disk.State(), old(disk.State()), writes, index + 1);
      if !ok {
        return false;
      }
    }
    assert writes[..|writes|] == writes;
    return true;
  }

  method Cleanup(disk: Disk, transaction: Transaction) returns (ok: bool)
    modifies disk
    ensures disk.history == old(disk.history) + [disk.State()]
    ensures old(disk.Traced()) ==> disk.Traced()
    ensures disk.State() == if ok then Without(old(disk.State()), transaction.directory) else old(disk.State())
  {
    ok := disk.RemoveDirectory(transaction.directory);
  }

  /** Restores and then forgets the transaction, whatever its marker says. */
  method Rollback(disk: Disk, transaction: Transaction, home: Path) returns (ok: bool)
    requires transaction.directory in disk.txns
    modifies disk
    ensures old(disk.history) <= disk.history
    ensures old(disk.Traced()) ==> disk.Traced()
    ensures ok ==> Restorable(old(disk.State()), transaction, home)
                   && disk.State() == Without(Restored(old(disk.State()), transaction, home), transaction.directory)
    ensures !ok ==> PartlyRestored(disk.State(), old(disk.State()), WritesOf(old(disk.State()), transaction, home))
    ensures forall i | |old(disk.history)| <= i < |disk.history| ::
              || PartlyRestored(disk.history[i], old(disk.State()), WritesOf(old(disk.State()), transaction, home))
              || (ok && disk.history[i] == disk.State())
  {
    ok := RestorePrepared(disk, transaction, home);
    if ok {
      ghost var writes := WritesOf(old(disk.State()), transaction, home);
      assert writes[..|writes|] == writes;
      assert RestoredUpTo(disk.State(), old(disk.State()), writes, |writes|);
      ok := Cleanup(disk, transaction);
    }
  }

  /** Writes the durable commit marker; the manifest in memory says committed even if the write fails. */
  method MarkCommitted(disk: Disk, transaction: Transaction) returns (marked: Transaction, ok: bool)
    modifies disk
    ensures marked == transaction.(manifest := transaction.manifest.(state := Committed))
    ensures disk.history == old(disk.history) + [disk.State()]
    ensures old(disk.Traced()) ==> disk.Traced()
    ensures disk.files == old(disk.files)
    ensures disk.txns == old(disk.txns)
            || (transaction.directory in old(disk.txns)
                && disk.txns == WithManifest(old(disk.txns), transaction.directory, marked.manifest))
    ensures ok ==> transaction.directory in old(disk.txns)
                   && disk.txns == WithManifest(old(disk.txns), transaction.directory, marked.manifest)
  {
    marked := transaction.(manifest := transaction.manifest.(state := Committed));
    ok := disk.WriteManifest(transaction.directory, marked.manifest);
  }

  // ---- Recovering at startup ----

  function PreparedNames(txns: map<Name, Directory>): set<Name> {
    set n | n in txns && txns[n].manifest.Stored? && txns[n].manifest.manifest.state == Prepared
  }

  lemma PreparedCount(txns: map<Name, Directory>, n: Name)
    requires n in txns
    ensures |txns - {n}| == |txns| - 1
    ensures |PreparedNames(txns - {n})| == |PreparedNames(txns)| - if n in PreparedNames(txns) then 1 else 0
  {
    assert txns.Keys == (txns - {n}).Keys + {n};
    assert PreparedNames(txns - {n}) == PreparedNames(txns) - {n};
  }

  ghost predicate AllRecoverLike(history: seq<DiskState>, from: nat, home: Path, goal: Recovery) {
    forall i | from <= i < |history| :: Recover(history[i], home) == goal
  }

  /** Settles the first directory: rolls it back if it is prepared, and removes it. */
  method RecoverDirectory(disk: Disk, home: Path, name: Name) returns (ok: bool, restored: bool)
    requires disk.txns != map[] && name == First(disk.txns.Keys)
    modifies disk
    ensures old(disk.history) <= disk.history
    ensures old(disk.Traced()) ==> disk.Traced()
    ensures AllRecoverLike(disk.history, |old(disk.history)|, home, Recover(old(disk.State()), home))
    ensures Recover(disk.State(), home) == Recover(old(disk.State()), home)
    ensures ok ==> disk.txns == old(disk.txns) - {name} && restored == (name in PreparedNames(old(disk.txns)))
  {
    ghost var start := disk.State();
    assert start.txns.Keys == (start.txns - {name}).Keys + {name};
    restored := false;
    match disk.txns[name].manifest {
      case Malformed =>
        return false, false;
      case Missing =>
      case Stored(manifest) =>
        if manifest.state == Prepared {
          var transaction := Transaction(name, manifest);
          restored := RestorePrepared(disk, transaction, home);
          forall d | PartlyRestored(d, start, WritesOf(start, transaction, home)) ensures Recover(d, home) == Recover(start, home) {
            var k :| RestoredUpTo(d, start, WritesOf(start, transaction, home), k);
            RecoverAgain(start, home, k);
          }
          if !restored {
            return false, false;
          }
        }
    }
    ok := disk.RemoveDirectory(name);
  }

  /**
   Recovery, possibly cut short by a crash or a failing write: whatever state it
   leaves behind, recovering from that state has the outcome of recovering from
   the first one.
   */
  method RecoverAll(disk: Disk, home: Path) returns (ok: bool, recovered: nat, cleaned: nat)
    modifies disk
    ensures old(disk.history) <= disk.history
    ensures old(disk.Traced()) ==> disk.Traced()
    ensures AllRecoverLike(disk.history, |old(disk.history)|, home, Recover(old(disk.State()), home))
    ensures Recover(disk.State(), home) == Recover(old(disk.State()), home)
    ensures ok ==> Recover(old(disk.State()), home) == Recovery(disk.State(), true)
    ensures ok ==> recovered == |PreparedNames(old(disk.txns))| && recovered + cleaned == |old(disk.txns)|
  {
    recovered, cleaned := 0, 0;
    while disk.txns != map[]
      invariant old(disk.history) <= disk.history
      invariant old(disk.Traced()) ==> disk.Traced()
      invariant AllRecoverLike(disk.history, |old(disk.history)|, home, Recover(old(disk.State()), home))
      invariant Recover(disk.State(), home) == Recover(old(disk.State()), home)
      invariant recovered + |PreparedNames(disk.txns)| == |PreparedNames(old(disk.txns))|
      invariant recovered + cleaned + |disk.txns| == |old(disk.txns)|
      decreases |disk.txns|
    {
      var name := LeastName(disk.txns.Keys);
      PreparedCount(disk.txns, name);
      var restored;
      ok, restored := RecoverDirectory(disk, home, name);
      if !ok {
        return;
      }
      if restored {
        recovered := recovered + 1;
      } else {
        cleaned := cleaned + 1;
      }
    }
    ok := true;
  }

  method LeastName(names: set<Name>) returns (least: Name)
    requires names != {}
    ensures least == First(names)
  {
    least :| least in names;
    var left := names - {least};
    while left != {}
      invariant left <= names && least in names - left
      invariant forall n | n in names - left :: least <= n
      decreases left
    {
      var n :| n in left;
      assert names - (left - {n}) == names - left + {n};
      if n < least { least := n; }
      left := left - {n};
    }
    assert names - left == names;
  }
}
