/**
 * Running a deploy order: preconditions (crates/glpi-deploy/src/checks.rs), files
 * (crates/glpi-deploy/src/downloader.rs), then actions
 * (crates/glpi-deploy/src/task.rs). The SHA-512, the fetcher, the disk and the
 * outcome of each action are parameters.
 */
module Deploy {
  import opened Common

  type Sha = Bytes -> string

  /** A file of the disk, as opposed to the many names that lead to it. */
  type Path = string

  type Files = map<Path, Bytes>

  function LowerChar(c: char): char {
    if 'A' <= c <= 'Z' then c - 'A' + 'a' else c
  }

  function Lower(s: string): string {
    seq(|s|, i requires 0 <= i < |s| => LowerChar(s[i]))
  }

  /** `sha512_matches`: digests compare without regard to ASCII case. */
  predicate SameDigest(a: string, b: string) {
    Lower(a) == Lower(b)
  }

  // ---- Preconditions ----------------------------------------------------------------

  datatype OnFailure = Ko | Warning | Info | Ignore

  datatype CheckKind =
    | FileExists(path: string)
    | FileMissing(path: string)
    | DirectoryExists(path: string)
    | FileSizeGreater(path: string, value: nat)
    | FreespaceGreater(path: string, value: nat)
    | FileSha512(path: string, digest: string)
    | FileSha512Mismatch(path: string, digest: string)

  datatype Check = Check(kind: CheckKind, onFailure: OnFailure)

  datatype CheckResult = CheckResult(passed: bool, onFailure: OnFailure)

  datatype Env = Env(
    present: string -> bool, isDir: string -> bool, fileSize: string -> Option<nat>,
    fileSha512: string -> Option<string>, freeSpaceMib: string -> Option<nat>)

  /** `evaluate_one`: unknown free space passes, a missing file has no digest. */
  predicate Passes(kind: CheckKind, env: Env) {
    match kind
    case FileExists(path) => env.present(path)
    case FileMissing(path) => !env.present(path)
    case DirectoryExists(path) => env.isDir(path)
    case FileSizeGreater(path, value) => env.fileSize(path).Some? && env.fileSize(path).value > value
    case FreespaceGreater(path, value) => env.freeSpaceMib(path).None? || env.freeSpaceMib(path).value > value
    case FileSha512(path, digest) => env.fileSha512(path).Some? && SameDigest(env.fileSha512(path).value, digest)
    case FileSha512Mismatch(path, digest) =>
      env.fileSha512(path).None? || !SameDigest(env.fileSha512(path).value, digest)
  }

  ghost predicate MayProceed(checks: seq<Check>, env: Env) {
    forall i | 0 <= i < |checks| :: checks[i].onFailure.Ko? ==> Passes(checks[i].kind, env)
  }

  /** `CheckProcessor::evaluate`: every check is evaluated, whatever came before. */
  method Evaluate(checks: seq<Check>, env: Env) returns (proceed: bool, results: seq<CheckResult>)
    ensures proceed <==> MayProceed(checks, env)
    ensures |results| == |checks|
    ensures forall i | 0 <= i < |checks| ::
      results[i] == CheckResult(Passes(checks[i].kind, env), checks[i].onFailure)
    ensures proceed <==> forall i | 0 <= i < |results| :: results[i].onFailure == Ko ==> results[i].passed
  {
    proceed, results := true, [];
    for i := 0 to |checks|
      invariant proceed <==> MayProceed(checks[..i], env)
      invariant |results| == i
      invariant forall j | 0 <= j < i :: results[j] == CheckResult(Passes(checks[j].kind, env), checks[j].onFailure)
    {
      var passed := Passes(checks[i].kind, env);
      assert checks[..i + 1] == checks[..i] + [checks[i]];
      if !passed && checks[i].onFailure == Ko {
        assert checks[..i + 1][i] == checks[i];
        proceed := false;
      }
      results := results + [CheckResult(passed, checks[i].onFailure)];
    }
    assert checks[..|checks|] == checks;
  }

  // ---- Files ------------------------------------------------------------------------

  datatype AssociatedFile = AssociatedFile(name: string, multiparts: seq<string>)

  datatype Error = FetchFailed | PartMismatch(index: nat) | WholeMismatch | WriteFailed | ActionFault

  /** The parts a fetcher delivers for one file, by position. */
  type Parts = nat -> Option<Bytes>

  /** The parts one after the other; a missing one counts as empty. */
  function Joined(parts: Parts, n: nat): Bytes {
    if n == 0 then [] else Joined(parts, n - 1) + if parts(n - 1).Some? then parts(n - 1).value else []
  }

  predicate PartVerified(sha: Sha, digests: seq<string>, parts: Parts, i: nat)
    requires i < |digests|
  {
    parts(i).Some? && SameDigest(sha(parts(i).value), digests[i])
  }

  ghost predicate AllVerified(sha: Sha, file: AssociatedFile, parts: Parts, key: string) {
    && (forall i | 0 <= i < |file.multiparts| :: PartVerified(sha, file.multiparts, parts, i))
    && SameDigest(sha(Joined(parts, |file.multiparts|)), key)
  }

  /** What became of a write: done, or failed leaving something or nothing behind. */
  datatype Disk = Written | Broken(left: Option<Bytes>)

  /**
   * Everything an order depends on besides its environment: where a name leads from
   * the working directory, the parts and the disk of each file, what each action
   * comes to and what it does to the files.
   */
  datatype World = World(
    resolve: string -> Path, parts: nat -> Parts, disk: nat -> Disk,
    action: nat -> ActionOutcome, change: nat -> Files -> Files)

  datatype ActionOutcome = Succeeded | Failed(message: string) | Faulted

  datatype Effect =
    | Wrote(path: Path, bytes: Bytes, disk: Disk)
    | Ran(action: nat, outcome: ActionOutcome, change: Files -> Files)

  datatype Order = Order(
    files: seq<(string, AssociatedFile)>,  // by digest key, in key order
    checks: seq<Check>, actions: nat, runSoftwareInventory: bool)

  datatype Report = Report(
    success: bool, checkResults: seq<CheckResult>, actionResults: seq<bool>,
    message: Option<string>, runSoftwareInventory: bool)

  function AfterWrite(files: Files, path: Path, bytes: Bytes, disk: Disk): Files {
    match disk
    case Written => files[path := bytes]
    case Broken(None) => files - {path}
    case Broken(Some(left)) => files[path := left]
  }

  /** The files after these effects. */
  function Replay(files: Files, effects: seq<Effect>): Files {
    if effects == [] then files
    else
      var before := Replay(files, effects[..|effects| - 1]);
      match effects[|effects| - 1]
      case Wrote(path, bytes, disk) => AfterWrite(before, path, bytes, disk)
      case Ran(_, _, change) => change(before)
  }

  lemma {:induction false} ReplayAppend(files: Files, a: seq<Effect>, b: seq<Effect>)
    ensures Replay(files, a + b) == Replay(Replay(files, a), b)
  {
    if b == [] {
      assert a + b == a;
    } else {
      assert (a + b)[..|a + b| - 1] == a + b[..|b| - 1];
      ReplayAppend(files, a, b[..|b| - 1]);
    }
  }

  /** The write of one file, if its digests hold. */
  ghost function Writes(
    sha: Sha, file: AssociatedFile, target: Path, parts: Parts, disk: Disk, key: string): seq<Effect>
  {
    if AllVerified(sha, file, parts, key) then [Wrote(target, Joined(parts, |file.multiparts|), disk)] else []
  }

  /** `workdir.join(&file.name)`, as the file it leads to. */
  function Target(order: Order, world: World, i: nat): Path
    requires i < |order.files|
  {
    world.resolve(order.files[i].1.name)
  }

  ghost function FileEffect(sha: Sha, order: Order, world: World, i: nat): seq<Effect>
    requires i < |order.files|
  {
    Writes(sha, order.files[i].1, Target(order, world, i), world.parts(i), world.disk(i), order.files[i].0)
  }

  ghost predicate FileFetched(sha: Sha, order: Order, world: World, i: nat)
    requires i < |order.files|
  {
    AllVerified(sha, order.files[i].1, world.parts(i), order.files[i].0) && world.disk(i).Written?
  }

  /** The effects of the first `n` files. */
  ghost function FileEffects(sha: Sha, order: Order, world: World, n: nat): seq<Effect>
    requires n <= |order.files|
  {
    if n == 0 then [] else FileEffects(sha, order, world, n - 1) + FileEffect(sha, order, world, n - 1)
  }

  /** How many files are fetched before the first one that is not. */
  ghost function Fetched(sha: Sha, order: Order, world: World, from: nat := 0): (n: nat)
    requires from <= |order.files|
    ensures from <= n <= |order.files|
    decreases |order.files| - from
  {
    if from == |order.files| || !FileFetched(sha, order, world, from) then from
    else Fetched(sha, order, world, from + 1)
  }

  function Content(order: Order, world: World, i: nat): Bytes
    requires i < |order.files|
  {
    Joined(world.parts(i), |order.files[i].1.multiparts|)
  }

  /** The directory after the first `n` files are written. */
  function AfterFiles(files: Files, order: Order, world: World, n: nat): Files
    requires n <= |order.files|
  {
    if n == 0 then files
    else AfterFiles(files, order, world, n - 1)[Target(order, world, n - 1) := Content(order, world, n - 1)]
  }

  /** How many actions run: up to and including the first one that does not succeed. */
  function ActionsRun(order: Order, world: World, from: nat := 0): (n: nat)
    requires from <= order.actions
    ensures from <= n <= order.actions
    decreases order.actions - from
  {
    if from == order.actions then from
    else if !world.action(from).Succeeded? then from + 1
    else ActionsRun(order, world, from + 1)
  }

  function ActionEffects(world: World, n: nat): (effects: seq<Effect>)
    ensures |effects| == n && forall k | 0 <= k < n :: effects[k] == Ran(k, world.action(k), world.change(k))
  {
    seq(n, k requires 0 <= k < n => Ran(k, world.action(k), world.change(k)))
  }

  ghost predicate AllFetched(sha: Sha, order: Order, world: World) {
    Fetched(sha, order, world) == |order.files|
  }

  /** The actions of the run: none unless no `ko` check failed and every file is in place. */
  ghost function Runs(sha: Sha, order: Order, env: Env, world: World): seq<Effect> {
    if MayProceed(order.checks, env) && AllFetched(sha, order, world)
    then ActionEffects(world, ActionsRun(order, world)) else []
  }

  /** Everything a run does, in order. */
  ghost function Effects(sha: Sha, order: Order, env: Env, world: World): seq<Effect> {
    if !MayProceed(order.checks, env) then []
    else
      FilePhase(sha, order, world) + Runs(sha, order, env, world)
  }

  /** The effects of the files up to and including the first one that is not fetched. */
  ghost function FilePhase(sha: Sha, order: Order, world: World): seq<Effect> {
    var n := Fetched(sha, order, world);
    FileEffects(sha, order, world, if n == |order.files| then n else n + 1)
  }

  ghost predicate Succeeds(sha: Sha, order: Order, env: Env, world: World) {
    && MayProceed(order.checks, env)
    && (forall i | 0 <= i < |order.files| :: FileFetched(sha, order, world, i))
    && forall k | 0 <= k < order.actions :: world.action(k).Succeeded?
  }

  lemma {:induction false} FetchedStops(sha: Sha, order: Order, world: World, n: nat, from: nat := 0)
    requires from <= n <= |order.files|
    requires forall j | from <= j < n :: FileFetched(sha, order, world, j)
    requires n < |order.files| ==> !FileFetched(sha, order, world, n)
    ensures Fetched(sha, order, world, from) == n
    decreases n - from
  {
    if from < n { FetchedStops(sha, order, world, n, from + 1); }
  }

  lemma {:induction false} FetchedBelow(sha: Sha, order: Order, world: World, from: nat := 0)
    requires from <= |order.files|
    ensures var n := Fetched(sha, order, world, from);
      && (forall j | from <= j < n :: FileFetched(sha, order, world, j))
      && (n < |order.files| ==> !FileFetched(sha, order, world, n))
    decreases |order.files| - from
  {
    if from < |order.files| && FileFetched(sha, order, world, from) { FetchedBelow(sha, order, world, from + 1); }
  }

  lemma {:induction false} ActionsStop(order: Order, world: World, i: nat, from: nat := 0)
    requires from <= i <= order.actions
    requires forall k | from <= k < i :: world.action(k).Succeeded?
    requires i < order.actions ==> !world.action(i).Succeeded?
    ensures ActionsRun(order, world, from) == if i < order.actions then i + 1 else i
    decreases i - from
  {
    if from < i { ActionsStop(order, world, i, from + 1); }
  }

  /** These effects lead from one log and directory to another. */
  ghost predicate Does(
    log: seq<Effect>, files: Files, effects: seq<Effect>, log': seq<Effect>, files': Files)
  {
    log' == log + effects && files' == Replay(files, effects)
  }

  lemma DoesMore(
    log: seq<Effect>, files: Files, a: seq<Effect>, log1: seq<Effect>, files1: Files,
    b: seq<Effect>, log2: seq<Effect>, files2: Files)
    requires Does(log, files, a, log1, files1) && Does(log1, files1, b, log2, files2)
    ensures Does(log, files, a + b, log2, files2)
  {
    Assoc(log, a, b);
    ReplayAppend(files, a, b);
  }

  lemma OneMoreFile(
    sha: Sha, order: Order, world: World, i: nat, log: seq<Effect>, files: Files,
    log1: seq<Effect>, files1: Files, log2: seq<Effect>, files2: Files)
    requires i < |order.files|
    requires Does(log, files, FileEffects(sha, order, world, i), log1, files1)
    requires Does(log1, files1, FileEffect(sha, order, world, i), log2, files2)
    ensures Does(log, files, FileEffects(sha, order, world, i + 1), log2, files2)
  {
    DoesMore(log, files, FileEffects(sha, order, world, i), log1, files1,
             FileEffect(sha, order, world, i), log2, files2);
  }

  lemma OneMoreAction(world: World, i: nat, log: seq<Effect>, files: Files, log': seq<Effect>, files': Files)
    requires Does(log, files, ActionEffects(world, i), log', files')
    ensures Does(log, files, ActionEffects(world, i + 1),
                 log' + [Ran(i, world.action(i), world.change(i))], world.change(i)(files'))
  {
    var effects := ActionEffects(world, i + 1);
    assert effects[..i] == ActionEffects(world, i);
    Assoc(log, ActionEffects(world, i), [Ran(i, world.action(i), world.change(i))]);
  }

  lemma {:induction false} RunsSucceedBefore(order: Order, world: World, from: nat)
    requires from <= order.actions
    ensures var n := ActionsRun(order, world, from);
      && (forall k | from <= k < n - 1 :: world.action(k).Succeeded?)
      && ((forall k | from <= k < n :: world.action(k).Succeeded?) ==> n == order.actions)
    decreases order.actions - from
  {
    if from < order.actions && world.action(from).Succeeded? { RunsSucceedBefore(order, world, from + 1); }
  }

  /** Success is decided by the last action that ran. */
  lemma SucceedsWhen(sha: Sha, order: Order, env: Env, world: World)
    ensures var n := ActionsRun(order, world);
      Succeeds(sha, order, env, world) <==>
        MayProceed(order.checks, env) && AllFetched(sha, order, world) && (n == 0 || world.action(n - 1).Succeeded?)
  {
    FetchedBelow(sha, order, world);
    RunsSucceedBefore(order, world, 0);
    if Succeeds(sha, order, env, world) { FetchedStops(sha, order, world, |order.files|); }
  }

  /** The files an order works on and a record of everything done to them. */
  class Workdir {
    var files: Files
    ghost var log: seq<Effect>

    constructor ()
      ensures files == map[] && log == []
    {
      files, log := map[], [];
    }

    /** `std::fs::write`. */
    method Write(path: Path, bytes: Bytes, disk: Disk) returns (ok: bool)
      modifies this
      ensures log == old(log) + [Wrote(path, bytes, disk)] && (ok <==> disk.Written?)
      ensures files == AfterWrite(old(files), path, bytes, disk)
    {
      log := log + [Wrote(path, bytes, disk)];
      match disk {
        case Written => files := files[path := bytes];
        case Broken(left) => files := if left.Some? then files[path := left.value] else files - {path};
      }
      return disk.Written?;
    }

    /** `assemble`: nothing is written before every part and the whole are verified. */
    method Assemble(sha: Sha, file: AssociatedFile, target: Path, parts: Parts, disk: Disk, key: string)
      returns (error: Option<Error>)
      modifies this
      ensures error.None? <==> AllVerified(sha, file, parts, key) && disk.Written?
      ensures log == old(log) + Writes(sha, file, target, parts, disk, key)
      ensures files == Replay(old(files), Writes(sha, file, target, parts, disk, key))
    {
      var assembled: Bytes := [];
      assert log + [] == log;
      for i := 0 to |file.multiparts|
        invariant log == old(log) && files == old(files)
        invariant assembled == Joined(parts, i)
        invariant forall j | 0 <= j < i :: PartVerified(sha, file.multiparts, parts, j)
      {
        var bytes := parts(i);
        if bytes.None? {
          assert !PartVerified(sha, file.multiparts, parts, i);
          return Some(FetchFailed);
        }
        if !SameDigest(sha(bytes.value), file.multiparts[i]) {
          assert !PartVerified(sha, file.multiparts, parts, i);
          return Some(PartMismatch(i));
        }
        assembled := assembled + bytes.value;
      }
      if !SameDigest(sha(assembled), key) {
        return Some(WholeMismatch);
      }
      assert [Wrote(target, assembled, disk)][..0] == [];
      var ok := Write(target, assembled, disk);
      return if ok then None else Some(WriteFailed);
    }

    /** `DeployTask::run`. */
    method Run(sha: Sha, order: Order, env: Env, world: World) returns (r: Result<Report, Error>)
      modifies this
      ensures Does(old(log), old(files), Effects(sha, order, env, world), log, files)
      ensures r.Err? <==> MayProceed(order.checks, env) && Fetched(sha, order, world) == |order.files|
                          && ActionsRun(order, world) > 0 && world.action(ActionsRun(order, world) - 1).Faulted?
      ensures r.Ok? ==>
        && (r.value.success <==> Succeeds(sha, order, env, world))
        && (r.value.success <==> r.value.message.None?)
        && (r.value.runSoftwareInventory <==> r.value.success && order.runSoftwareInventory)
        && |r.value.checkResults| == |order.checks|
        && |r.value.actionResults| == |Runs(sha, order, env, world)|
        && forall k | 0 <= k < |r.value.actionResults| :: r.value.actionResults[k] <==> world.action(k).Succeeded?
    {
      var proceed, results := Evaluate(order.checks, env);
      assert log + [] == log;
      if !proceed {
        return Ok(Report(false, results, [], Some("preconditions not met"), false));
      }
      SucceedsWhen(sha, order, env, world);
      var fetched := FetchAll(sha, order, world);
      assert FilePhase(sha, order, world) + [] == FilePhase(sha, order, world);
      if !fetched {
        return Ok(Report(false, results, [], Some("download failed"), false));
      }
      label Fetched:
      var actionResults, outcome := RunActions(order, world);
      DoesMore(old(log), old(files), FilePhase(sha, order, world), old@Fetched(log), old@Fetched(files),
               ActionEffects(world, ActionsRun(order, world)), log, files);
      match outcome {
        case Faulted => return Err(ActionFault);
        case Failed(message) => return Ok(Report(false, results, actionResults, Some(message), false));
        case Succeeded => return Ok(Report(true, results, actionResults, None, order.runSoftwareInventory));
      }
    }

    /** One file of the order. */
    method Fetch(sha: Sha, order: Order, world: World, i: nat) returns (ok: bool)
      requires i < |order.files|
      modifies this
      ensures ok <==> FileFetched(sha, order, world, i)
      ensures Does(old(log), old(files), FileEffect(sha, order, world, i), log, files)
    {
      var error := Assemble(
        sha, order.files[i].1, Target(order, world, i), world.parts(i), world.disk(i), order.files[i].0);
      ok := error.None?;
    }

    method FetchAll(sha: Sha, order: Order, world: World) returns (ok: bool)
      modifies this
      ensures ok <==> AllFetched(sha, order, world)
      ensures Does(old(log), old(files), FilePhase(sha, order, world), log, files)
    {
      assert log + [] == log;
      ok := true;
      ghost var done := 0;
      for i := 0 to |order.files|
        invariant ok && done == i && Fetched(sha, order, world) == Fetched(sha, order, world, i)
        invariant Does(old(log), old(files), FileEffects(sha, order, world, i), log, files)
      {
        label Before:
        ok := Fetch(sha, order, world, i);
        OneMoreFile(sha, order, world, i, old(log), old(files), old@Before(log), old@Before(files), log, files);
        if !ok {
          break;
        }
        done := i + 1;
      }
    }

    /** `run_one_action`: what it comes to and what it does to the files. */
    method RunOneAction(world: World, i: nat) returns (result: ActionOutcome)
      modifies this
      ensures result == world.action(i)
      ensures log == old(log) + [Ran(i, result, world.change(i))] && files == world.change(i)(old(files))
    {
      result := world.action(i);
      log, files := log + [Ran(i, result, world.change(i))], world.change(i)(files);
    }

    method RunActions(order: Order, world: World) returns (results: seq<bool>, outcome: ActionOutcome)
      modifies this
      ensures Does(old(log), old(files), ActionEffects(world, ActionsRun(order, world)), log, files)
      ensures Reported(world, ActionsRun(order, world), results, outcome)
    {
      results, outcome := [], Succeeded;
      ghost var ran := 0;
      assert log + [] == log;
      for i := 0 to order.actions
        invariant ran == i && ActionsRun(order, world) == ActionsRun(order, world, i)
        invariant Reported(world, i, results, outcome) && outcome.Succeeded?
        invariant Does(old(log), old(files), ActionEffects(world, ran), log, files)
      {
        OneMoreAction(world, i, old(log), old(files), log, files);
        outcome := RunOneAction(world, i);
        ran := i + 1;
        if outcome.Faulted? {
          break;
        }
        results := results + [outcome.Succeeded?];
        if outcome.Failed? {
          break;
        }
      }
    }
  }

  /** What a run reports after `n` actions: how the last one came out, and a result for each that has one. */
  ghost predicate Reported(world: World, n: nat, results: seq<bool>, outcome: ActionOutcome) {
    && outcome == (if n == 0 then Succeeded else world.action(n - 1))
    && |results| == (if outcome.Faulted? then n - 1 else n)
    && forall k | 0 <= k < |results| :: results[k] <==> world.action(k).Succeeded?
  }

  // ---- Safety of every run -----------------------------------------------------------

  lemma {:induction false} EffectOfSomeFile(sha: Sha, order: Order, world: World, n: nat, e: Effect) returns (i: nat)
    requires n <= |order.files| && e in FileEffects(sha, order, world, n)
    ensures i < n && e in FileEffect(sha, order, world, i)
  {
    if e in FileEffect(sha, order, world, n - 1) {
      i := n - 1;
    } else {
      i := EffectOfSomeFile(sha, order, world, n - 1, e);
    }
  }

  /** A file is written only with all its parts and its whole digest verified. */
  lemma WrittenIsVerified(sha: Sha, order: Order, env: Env, world: World, e: Effect) returns (i: nat)
    requires e in Effects(sha, order, env, world) && e.Wrote?
    ensures i < |order.files| && e.path == Target(order, world, i) && e.bytes == Content(order, world, i)
    ensures AllVerified(sha, order.files[i].1, world.parts(i), order.files[i].0)
  {
    var n := Fetched(sha, order, world);
    i := EffectOfSomeFile(sha, order, world, if n == |order.files| then n else n + 1, e);
  }

  /**
   * The actions that run are the first ones, in order, after all the writes; all but
   * the last succeeded; and there is one only if no `ko` check failed and every file
   * was verified and written.
   */
  lemma ActionsAreGuarded(sha: Sha, order: Order, env: Env, world: World)
    ensures var runs := Runs(sha, order, env, world);
      && |runs| <= order.actions && |runs| <= |Effects(sha, order, env, world)|
      && (forall e | e in Effects(sha, order, env, world)[..|Effects(sha, order, env, world)| - |runs|] :: e.Wrote?)
      && (forall k | 0 <= k < |runs| :: runs[k] == Ran(k, world.action(k), world.change(k)))
      && (forall k | 0 <= k < |runs| - 1 :: world.action(k).Succeeded?)
      && (runs != [] ==> MayProceed(order.checks, env)
                         && forall i | 0 <= i < |order.files| :: FileFetched(sha, order, world, i))
  {
    var runs, effects := Runs(sha, order, env, world), Effects(sha, order, env, world);
    FetchedBelow(sha, order, world);
    RunsSucceedBefore(order, world, 0);
    if MayProceed(order.checks, env) {
      var n := Fetched(sha, order, world);
      var m := if n == |order.files| then n else n + 1;
      assert effects[..|effects| - |runs|] == FileEffects(sha, order, world, m);
      forall e | e in FileEffects(sha, order, world, m) ensures e.Wrote? {
        var i := EffectOfSomeFile(sha, order, world, m, e);
      }
    }
  }

  /** An order succeeds exactly if its checks let it, every file was fetched, and all actions ran and succeeded. */
  lemma SucceedsIffAllRan(sha: Sha, order: Order, env: Env, world: World)
    ensures Succeeds(sha, order, env, world) <==>
      && MayProceed(order.checks, env) && AllFetched(sha, order, world)
      && |Runs(sha, order, env, world)| == order.actions
      && forall k | 0 <= k < order.actions :: Runs(sha, order, env, world)[k] == Ran(k, Succeeded, world.change(k))
  {
    FetchedBelow(sha, order, world);
    RunsSucceedBefore(order, world, 0);
    if Succeeds(sha, order, env, world) {
      FetchedStops(sha, order, world, |order.files|);
      ActionsStop(order, world, order.actions);
    }
  }

  /** After the first file that is not fetched no other file is touched and no action runs. */
  lemma StopsAtFirstFailure(sha: Sha, order: Order, env: Env, world: World, k: nat)
    requires MayProceed(order.checks, env) && k < |order.files| && !FileFetched(sha, order, world, k)
    requires forall i | 0 <= i < k :: FileFetched(sha, order, world, i)
    ensures Effects(sha, order, env, world) == FileEffects(sha, order, world, k) + FileEffect(sha, order, world, k)
    ensures |FileEffects(sha, order, world, k)| == k
  {
    FetchedStops(sha, order, world, k);
    OneEffectEach(sha, order, world, k);
    assert Effects(sha, order, env, world) == FileEffects(sha, order, world, k + 1) + [];
  }

  lemma {:induction false} OneEffectEach(sha: Sha, order: Order, world: World, n: nat)
    requires n <= |order.files| && forall i | 0 <= i < n :: FileFetched(sha, order, world, i)
    ensures |FileEffects(sha, order, world, n)| == n
  {
    if n > 0 {
      OneEffectEach(sha, order, world, n - 1);
      assert FileFetched(sha, order, world, n - 1);
    }
  }

  // ---- What is written ----------------------------------------------------------------

  /** The total length of the first `n` parts. */
  function Length(parts: Parts, n: nat): nat {
    if n == 0 then 0 else Length(parts, n - 1) + if parts(n - 1).Some? then |parts(n - 1).value| else 0
  }

  /** The joined parts are as long as all of them, and each stands behind those before it. */
  lemma {:induction false} PartsStandInOrder(parts: Parts, n: nat, i: nat)
    requires i < n && parts(i).Some?
    ensures |Joined(parts, n)| == Length(parts, n) && Length(parts, i) + |parts(i).value| <= Length(parts, n)
    ensures Joined(parts, n)[Length(parts, i)..Length(parts, i) + |parts(i).value|] == parts(i).value
    decreases n
  {
    JoinedLength(parts, n - 1);
    if i < n - 1 {
      PartsStandInOrder(parts, n - 1, i);
      assert Joined(parts, n)[..Length(parts, n - 1)] == Joined(parts, n - 1);
      assert Joined(parts, n)[Length(parts, i)..Length(parts, i) + |parts(i).value|]
          == Joined(parts, n - 1)[Length(parts, i)..Length(parts, i) + |parts(i).value|];
    }
  }

  lemma {:induction false} JoinedLength(parts: Parts, n: nat)
    ensures |Joined(parts, n)| == Length(parts, n)
  {
    if n > 0 { JoinedLength(parts, n - 1); }
  }

  /** Places that cut a content into consecutive pieces. */
  predicate Cuts(cuts: seq<nat>, content: Bytes) {
    && cuts != [] && cuts[0] == 0 && cuts[|cuts| - 1] == |content|
    && forall i, j | 0 <= i < j < |cuts| :: cuts[i] <= cuts[j]
  }

  lemma {:induction false} PiecesJoin(parts: Parts, content: Bytes, cuts: seq<nat>, n: nat)
    requires Cuts(cuts, content) && n < |cuts|
    requires forall i | 0 <= i < n :: parts(i) == Some(content[cuts[i]..cuts[i + 1]])
    ensures cuts[n] <= |content| && Joined(parts, n) == content[..cuts[n]]
  {
    assert n < |cuts| - 1 ==> cuts[n] <= cuts[|cuts| - 1];
    if n > 0 { PiecesJoin(parts, content, cuts, n - 1); }
  }

  /**
   * Any content, cut into consecutive pieces that are delivered under their own digests
   * and under the digest of the whole, is verified and written back as that content.
   */
  lemma ContentIsWrittenBack(
    sha: Sha, file: AssociatedFile, target: Path, parts: Parts, disk: Disk, content: Bytes, cuts: seq<nat>)
    requires Cuts(cuts, content) && |cuts| == |file.multiparts| + 1
    requires forall i | 0 <= i < |file.multiparts| ::
      parts(i) == Some(content[cuts[i]..cuts[i + 1]]) && file.multiparts[i] == sha(content[cuts[i]..cuts[i + 1]])
    ensures AllVerified(sha, file, parts, sha(content))
    ensures Writes(sha, file, target, parts, disk, sha(content)) == [Wrote(target, content, disk)]
  {
    PiecesJoin(parts, content, cuts, |file.multiparts|);
    assert content[..|content|] == content;
    forall i | 0 <= i < |file.multiparts| ensures PartVerified(sha, file.multiparts, parts, i) {
      assert parts(i) == Some(content[cuts[i]..cuts[i + 1]]);
    }
  }

  /** What is written has every verified part in its place and nothing else. */
  lemma WrittenIsTheParts(
    sha: Sha, file: AssociatedFile, target: Path, parts: Parts, disk: Disk, key: string, e: Effect, i: nat)
    requires e in Writes(sha, file, target, parts, disk, key) && i < |file.multiparts|
    ensures e.Wrote? && e.path == target && |e.bytes| == Length(parts, |file.multiparts|) && parts(i).Some?
    ensures Length(parts, i) + |parts(i).value| <= |e.bytes|
    ensures e.bytes[Length(parts, i)..Length(parts, i) + |parts(i).value|] == parts(i).value
    ensures SameDigest(sha(parts(i).value), file.multiparts[i]) && SameDigest(sha(e.bytes), key)
  {
    assert PartVerified(sha, file.multiparts, parts, i);
    PartsStandInOrder(parts, |file.multiparts|, i);
  }

  // ---- What checks and digests mean ---------------------------------------------------

  /** Two code points that are the same, or the two cases of one ASCII letter. */
  predicate SameButCase(a: nat, b: nat) {
    a == b || (65 <= a <= 90 && b == a + 32) || (65 <= b <= 90 && a == b + 32)
  }

  /** Digests are compared character by character, up to the case of ASCII letters. */
  lemma SameDigestIff(a: string, b: string)
    ensures SameDigest(a, b) <==> |a| == |b| && forall i | 0 <= i < |a| :: SameButCase(a[i] as nat, b[i] as nat)
  {
    if SameDigest(a, b) {
      assert |Lower(a)| == |a| && |Lower(b)| == |b|;
      forall i | 0 <= i < |a| ensures SameButCase(a[i] as nat, b[i] as nat) {
        assert Lower(a)[i] == Lower(b)[i];
      }
    } else if |a| == |b| {
      var i :| 0 <= i < |a| && Lower(a)[i] != Lower(b)[i];
      assert !SameButCase(a[i] as nat, b[i] as nat);
    }
  }

  /**
   * The checks against what is there: presence and absence exclude each other, as do a
   * digest and its mismatch, which a missing file has; sizes and free space are to be
   * strictly greater, and free space that is not known is no obstacle.
   */
  lemma ChecksMean(env: Env, path: string, n: nat, digest: string)
    ensures Passes(FileExists(path), env) == env.present(path)
    ensures Passes(FileMissing(path), env) != Passes(FileExists(path), env)
    ensures Passes(DirectoryExists(path), env) == env.isDir(path)
    ensures Passes(FileSizeGreater(path, n), env) <==> exists size: nat :: env.fileSize(path) == Some(size) && size > n
    ensures !Passes(FreespaceGreater(path, n), env) <==>
      exists space: nat :: env.freeSpaceMib(path) == Some(space) && space <= n
    ensures Passes(FileSha512(path, digest), env) <==>
      exists actual :: env.fileSha512(path) == Some(actual) && SameDigest(actual, digest)
    ensures Passes(FileSha512Mismatch(path, digest), env) != Passes(FileSha512(path, digest), env)
  {
  }

  // ---- Files in place ----------------------------------------------------------------

  /** Every file of the order stands where its name leads, with a content of its key's digest. */
  ghost predicate InPlace(sha: Sha, order: Order, world: World, files: Files) {
    forall i | 0 <= i < |order.files| ::
      Target(order, world, i) in files && SameDigest(sha(files[Target(order, world, i)]), order.files[i].0)
  }

  /** Files whose names lead to one place share a key, up to case. */
  ghost predicate TargetsAgree(order: Order, world: World) {
    forall i, j | 0 <= i < j < |order.files| && Target(order, world, i) == Target(order, world, j) ::
      SameDigest(order.files[i].0, order.files[j].0)
  }

  lemma {:induction false} LastWriterWins(files: Files, order: Order, world: World, n: nat, i: nat) returns (j: nat)
    requires i < n <= |order.files|
    ensures i <= j < n && Target(order, world, j) == Target(order, world, i)
    ensures Target(order, world, i) in AfterFiles(files, order, world, n)
    ensures AfterFiles(files, order, world, n)[Target(order, world, i)] == Content(order, world, j)
    ensures forall k | j < k < n :: Target(order, world, k) != Target(order, world, i)
  {
    if Target(order, world, n - 1) == Target(order, world, i) {
      j := n - 1;
    } else {
      j := LastWriterWins(files, order, world, n - 1, i);
    }
  }

  lemma {:induction false} ReplayIsAfterFiles(sha: Sha, order: Order, world: World, files: Files, n: nat)
    requires n <= |order.files| && forall i | 0 <= i < n :: FileFetched(sha, order, world, i)
    ensures Replay(files, FileEffects(sha, order, world, n)) == AfterFiles(files, order, world, n)
  {
    if n > 0 {
      ReplayIsAfterFiles(sha, order, world, files, n - 1);
      var effect := FileEffect(sha, order, world, n - 1);
      assert FileFetched(sha, order, world, n - 1);
      assert |effect| == 1 && effect[..0] == [];
      ReplayAppend(files, FileEffects(sha, order, world, n - 1), effect);
    }
  }

  /**
   * When all files have been fetched, and before any action, they are all in place
   * exactly if files whose names lead to one place share a key.
   */
  lemma InPlaceIff(sha: Sha, order: Order, world: World, files: Files)
    requires AllFetched(sha, order, world)
    ensures InPlace(sha, order, world, Replay(files, FilePhase(sha, order, world))) <==> TargetsAgree(order, world)
  {
    var after := AfterFiles(files, order, world, |order.files|);
    FetchedBelow(sha, order, world);
    ReplayIsAfterFiles(sha, order, world, files, |order.files|);
    forall i | 0 <= i < |order.files|
      ensures Target(order, world, i) in after
      ensures TargetsAgree(order, world) ==> SameDigest(sha(after[Target(order, world, i)]), order.files[i].0)
    {
      var j := LastWriterWins(files, order, world, |order.files|, i);
      assert FileFetched(sha, order, world, j);
    }
  }

  /** What the first action finds: every file in place, exactly if no two keys were written to one place. */
  lemma ActionsFindFiles(sha: Sha, order: Order, env: Env, world: World, files: Files)
    requires Runs(sha, order, env, world) != []
    ensures var effects, runs := Effects(sha, order, env, world), Runs(sha, order, env, world);
      && |runs| <= |effects|
      && (InPlace(sha, order, world, Replay(files, effects[..|effects| - |runs|])) <==> TargetsAgree(order, world))
  {
    var effects, runs := Effects(sha, order, env, world), Runs(sha, order, env, world);
    assert effects[..|effects| - |runs|] == FilePhase(sha, order, world);
    InPlaceIff(sha, order, world, files);
  }

  /** With distinct names, none an alias of another, the files are in place before the first action. */
  lemma DistinctFilesInPlace(sha: Sha, order: Order, world: World, files: Files)
    requires AllFetched(sha, order, world)
    requires forall i, j | 0 <= i < j < |order.files| :: order.files[i].1.name != order.files[j].1.name
    requires forall i, j | 0 <= i < j < |order.files| && Target(order, world, i) == Target(order, world, j) ::
      order.files[i].1.name == order.files[j].1.name
    ensures InPlace(sha, order, world, Replay(files, FilePhase(sha, order, world)))
  {
    InPlaceIff(sha, order, world, files);
  }

  /** An order of two one-part files, called `a.bin` and `./a.bin`. */
  function AliasOrder(sha: Sha, first: Bytes, second: Bytes): Order {
    Order([(sha(first), AssociatedFile("a.bin", [sha(first)])),
           (sha(second), AssociatedFile("./a.bin", [sha(second)]))], [], 0, false)
  }

  /** A world that delivers the parts of that order and writes them without a fault. */
  function AliasWorld(resolve: string -> Path, first: Bytes, second: Bytes): World {
    World(resolve, i => (_ => Some(if i == 0 then first else second)), _ => Written,
          _ => Succeeded, _ => (files: Files) => files)
  }

  /**
   * Distinct names are not enough: where `a.bin` and `./a.bin` lead to one file, both
   * files of this order are fetched, and the second content replaces the first.
   */
  lemma AliasesLose(sha: Sha, resolve: string -> Path, files: Files, first: Bytes, second: Bytes)
    requires resolve("a.bin") == resolve("./a.bin") && !SameDigest(sha(first), sha(second))
    ensures var order, world := AliasOrder(sha, first, second), AliasWorld(resolve, first, second);
      AllFetched(sha, order, world) && !InPlace(sha, order, world, Replay(files, FilePhase(sha, order, world)))
  {
    var order, world := AliasOrder(sha, first, second), AliasWorld(resolve, first, second);
    forall i | 0 <= i < 2 ensures FileFetched(sha, order, world, i) {
      var content := if i == 0 then first else second;
      assert Joined(world.parts(i), 0) == [] && [] + content == content;
      assert Joined(world.parts(i), 1) == content;
    }
    FetchedStops(sha, order, world, 2);
    assert Target(order, world, 0) == Target(order, world, 1);
    InPlaceIff(sha, order, world, files);
  }
}
