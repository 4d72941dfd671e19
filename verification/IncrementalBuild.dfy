/**
  The incremental builder of scripts/compile_modules.py.

  The file system is a value: source contents by path, compiled artifacts by module, and the
  state file.  A hash stands for what it digests (hashes are taken as injective), and an
  artifact records everything its build depended on.
*/
module IncrementalBuild {
  import opened Wrappers

  /** Source contents by path. */
  type Sources = map<string, string>

  datatype Target = Target(name: string, mod: string, source: string)

  datatype Config = Config(languageLevel: int, annotate: bool, profile: bool, forceRebuild: bool, flags: seq<string>)

  /** What _hash_options digests; the compile flags are not part of it. */
  datatype Options = Options(languageLevel: int, annotate: bool, profile: bool, mod: string)

  datatype Entry = Entry(source: string, options: Options)

  datatype Artifact = Artifact(source: string, options: Options, flags: seq<string>)

  datatype StateFile = Missing | Corrupt | Saved(entries: map<string, Entry>)

  datatype Disk = Disk(sources: Sources, artifacts: map<string, Artifact>, state: StateFile) {
    /** load_state: a missing file, or one that is not JSON, counts as an empty state. */
    function Entries(): map<string, Entry> {
      if state.Saved? then state.entries else map[]
    }
  }

  /** How a build whose source exists ends: _copy_artifact unlinks the old artifact before it copies. */
  datatype Outcome = Succeeds | FailsBeforeCopy | FailsInCopy

  datatype Job = Job(config: Config, selected: set<string>, force: bool, outcomes: map<string, Outcome>) {
    /** An empty selection selects every target. */
    predicate Selects(t: Target) {
      selected == {} || t.name in selected || t.mod in selected
    }

    function OutcomeOf(t: Target): Outcome {
      if t.name in outcomes then outcomes[t.name] else Succeeds
    }

    predicate Builds(t: Target, sources: Sources) {
      t.source in sources && OutcomeOf(t) == Succeeds
    }
  }

  datatype Status = Cached | Succeeded | Failed

  datatype Progress = Progress(entries: map<string, Entry>, artifacts: map<string, Artifact>,
                               summary: seq<(string, string, Status)>, compiled: nat, failures: nat)

  function OptionsOf(c: Config, t: Target): Options {
    Options(c.languageLevel, c.annotate, c.profile, t.mod)
  }

  function FreshEntry(c: Config, t: Target, sources: Sources): Entry
    requires t.source in sources
  {
    Entry(sources[t.source], OptionsOf(c, t))
  }

  function FreshArtifact(c: Config, t: Target, sources: Sources): Artifact
    requires t.source in sources
  {
    Artifact(sources[t.source], OptionsOf(c, t), c.flags)
  }

  /** needs_build; None when hashing a missing source raises, which compile_targets does not catch. */
  function NeedsBuild(t: Target, job: Job, entries: map<string, Entry>, sources: Sources): Option<bool> {
    if job.force || job.config.forceRebuild || t.name !in entries then Some(true)
    else if t.source !in sources then None
    else Some(entries[t.name] != FreshEntry(job.config, t, sources))
  }

  /** One attempt to build t, as the try statement of compile_targets carries it out. */
  function Attempt(t: Target, job: Job, sources: Sources, p: Progress): Progress {
    if job.Builds(t, sources) then
      Progress(p.entries[t.name := FreshEntry(job.config, t, sources)],
               p.artifacts[t.mod := FreshArtifact(job.config, t, sources)],
               p.summary + [(t.name, t.mod, Succeeded)], p.compiled + 1, p.failures)
    else
      Progress(p.entries,
               if t.source in sources && job.OutcomeOf(t) == FailsInCopy then p.artifacts - {t.mod} else p.artifacts,
               p.summary + [(t.name, t.mod, Failed)], p.compiled, p.failures + 1)
  }

  /** One round of the loop; Err carries the artifacts left behind by a run that raises. */
  function Visit(t: Target, job: Job, sources: Sources, p: Progress)
    : Result<Progress, map<string, Artifact>>
  {
    if !job.Selects(t) then Ok(p)
    else
      match NeedsBuild(t, job, p.entries, sources)
      case None => Err(p.artifacts)
      case Some(false) => Ok(p.(summary := p.summary + [(t.name, t.mod, Cached)]))
      case Some(true) => Ok(Attempt(t, job, sources, p))
  }

  function VisitAll(targets: seq<Target>, job: Job, sources: Sources, p: Progress)
    : Result<Progress, map<string, Artifact>>
    decreases |targets|
  {
    if targets == [] then Ok(p)
    else
      match Visit(targets[0], job, sources, p)
      case Ok(q) => VisitAll(targets[1..], job, sources, q)
      case Err(a) => Err(a)
  }

  function Start(disk: Disk): Progress {
    Progress(disk.Entries(), disk.artifacts, [], 0, 0)
  }

  /** The whole of compile_targets: a run that raises leaves the state file as it was. */
  function CompileResult(disk: Disk, targets: seq<Target>, job: Job): Disk {
    Finish(disk, VisitAll(targets, job, disk.sources, Start(disk)))
  }

  function Finish(disk: Disk, r: Result<Progress, map<string, Artifact>>): Disk {
    match r
    case Ok(p) => disk.(artifacts := p.artifacts, state := Saved(p.entries))
    case Err(a) => disk.(artifacts := a)
  }

  lemma {:induction false} VisitAllSplit(targets: seq<Target>, job: Job, sources: Sources, p: Progress, i: nat)
    requires i <= |targets|
    ensures VisitAll(targets, job, sources, p) ==
            match VisitAll(targets[..i], job, sources, p)
            case Ok(q) => VisitAll(targets[i..], job, sources, q)
            case Err(a) => Err(a)
    decreases i
  {
    if i == 0 {
      assert targets[0..] == targets;
    } else {
      assert targets[..i][1..] == targets[1..][..i - 1];
      assert targets[1..][i - 1..] == targets[i..];
      match Visit(targets[0], job, sources, p)
      case Ok(q) => VisitAllSplit(targets[1..], job, sources, q, i - 1);
      case Err(_) =>
    }
  }

  /** compile_targets: None is a run that raises, otherwise the exit code. */
  method CompileTargets(disk: Disk, targets: seq<Target>, job: Job) returns (disk': Disk, exit: Option<int>)
    ensures disk' == CompileResult(disk, targets, job)
    ensures exit == match VisitAll(targets, job, disk.sources, Start(disk))
                    case Ok(p) => Some(if p.failures > 0 then 1 else 0)
                    case Err(_) => None
  {
    var entries := disk.Entries();
    var artifacts := disk.artifacts;
    var summary: seq<(string, string, Status)>, compiled: nat, failures: nat := [], 0, 0;
    for i := 0 to |targets|
      invariant VisitAll(targets[..i], job, disk.sources, Start(disk))
             == Ok(Progress(entries, artifacts, summary, compiled, failures))
    {
      var t := targets[i];
      ghost var before := Progress(entries, artifacts, summary, compiled, failures);
      VisitAllSplit(targets[..i + 1], job, disk.sources, Start(disk), i);
      assert targets[..i + 1][..i] == targets[..i] && targets[..i + 1][i..] == [t] && [t][1..] == [];
      VisitAllSplit(targets, job, disk.sources, Start(disk), i + 1);
      if !job.Selects(t) {
        continue;
      }
      var needs := NeedsBuild(t, job, entries, disk.sources);
      if needs.None? {
        return disk.(artifacts := artifacts), None;
      }
      if !needs.value {
        summary := summary + [(t.name, t.mod, Cached)];
        continue;
      }
      if job.Builds(t, disk.sources) {
        artifacts := artifacts[t.mod := FreshArtifact(job.config, t, disk.sources)];
        compiled := compiled + 1;
        summary := summary + [(t.name, t.mod, Succeeded)];
        entries := entries[t.name := FreshEntry(job.config, t, disk.sources)];
      } else {
        if t.source in disk.sources && job.OutcomeOf(t) == FailsInCopy {
          artifacts := artifacts - {t.mod};
        }
        failures := failures + 1;
        summary := summary + [(t.name, t.mod, Failed)];
      }
    }
    assert targets[..|targets|] == targets;
    return disk.(artifacts := artifacts, state := Saved(entries)), Some(if failures > 0 then 1 else 0);
  }

  // ---------------------------------------------------------------- one run, in closed form

  predicate Distinct(targets: seq<Target>) {
    forall i, j :: 0 <= i < j < |targets| ==> targets[i].name != targets[j].name && targets[i].mod != targets[j].mod
  }

  /** Every selected target has a source and builds. */
  predicate AllBuild(targets: seq<Target>, job: Job, sources: Sources) {
    forall t :: t in targets && job.Selects(t) ==> job.Builds(t, sources)
  }

  predicate Skips(t: Target, job: Job, entries: map<string, Entry>, sources: Sources) {
    job.Selects(t) && NeedsBuild(t, job, entries, sources) == Some(false)
  }

  predicate SameAt<V(==)>(a: map<string, V>, b: map<string, V>, n: string) {
    (n in a <==> n in b) && (n in a ==> a[n] == b[n])
  }

  lemma {:induction false} RunSucceeds(targets: seq<Target>, job: Job, sources: Sources, p: Progress)
    requires AllBuild(targets, job, sources)
    ensures VisitAll(targets, job, sources, p).Ok?
    decreases |targets|
  {
    if targets != [] {
      RunSucceeds(targets[1..], job, sources, Visit(targets[0], job, sources, p).value);
    }
  }

  lemma VisitKeeps(t: Target, job: Job, sources: Sources, p: Progress, n: string)
    requires Visit(t, job, sources, p).Ok?
    ensures (job.Selects(t) && t.name == n) || SameAt(Visit(t, job, sources, p).value.entries, p.entries, n)
    ensures (job.Selects(t) && t.mod == n) || SameAt(Visit(t, job, sources, p).value.artifacts, p.artifacts, n)
  {
  }

  /** A run leaves alone what belongs to no selected target. */
  lemma {:induction false} OthersKept(targets: seq<Target>, job: Job, sources: Sources, p: Progress, n: string)
    requires VisitAll(targets, job, sources, p).Ok?
    ensures
      var q := VisitAll(targets, job, sources, p).value;
      && ((forall t :: t in targets && job.Selects(t) ==> t.name != n) ==> SameAt(q.entries, p.entries, n))
      && ((forall t :: t in targets && job.Selects(t) ==> t.mod != n) ==> SameAt(q.artifacts, p.artifacts, n))
    decreases |targets|
  {
    if targets != [] {
      assert forall t :: t in targets[1..] ==> t in targets;
      assert targets[0] in targets;
      VisitKeeps(targets[0], job, sources, p, n);
      OthersKept(targets[1..], job, sources, Visit(targets[0], job, sources, p).value, n);
    }
  }

  /** A run whose builds succeed records a selected target, and rebuilds it unless it skips it. */
  lemma {:induction false} SelectedRecorded(targets: seq<Target>, job: Job, sources: Sources, p: Progress, t: Target)
    requires Distinct(targets) && AllBuild(targets, job, sources) && t in targets && job.Selects(t)
    ensures VisitAll(targets, job, sources, p).Ok?
    ensures
      var q := VisitAll(targets, job, sources, p).value;
      && t.name in q.entries && q.entries[t.name] == FreshEntry(job.config, t, sources)
      && (if Skips(t, job, p.entries, sources)
          then SameAt(q.artifacts, p.artifacts, t.mod)
          else t.mod in q.artifacts && q.artifacts[t.mod] == FreshArtifact(job.config, t, sources))
    decreases |targets|
  {
    RunSucceeds(targets, job, sources, p);
    var u, rest := targets[0], targets[1..];
    var p' := Visit(u, job, sources, p).value;
    if u == t {
      OthersKept(rest, job, sources, p', t.name);
      OthersKept(rest, job, sources, p', t.mod);
      assert forall v :: v in rest ==> v.name != t.name && v.mod != t.mod;
    } else {
      assert t in rest && u.name != t.name && u.mod != t.mod;
      VisitKeeps(u, job, sources, p, t.name);
      VisitKeeps(u, job, sources, p, t.mod);
      SelectedRecorded(rest, job, sources, p', t);
    }
  }

  // ---------------------------------------------------------------- unforced against forced

  /** What is on disk for t is what a build would put there now. */
  predicate UpToDate(t: Target, c: Config, disk: Disk) {
    t.source in disk.sources && t.mod in disk.artifacts
    && disk.artifacts[t.mod] == FreshArtifact(c, t, disk.sources)
  }

  lemma SameMap<V>(a: map<string, V>, b: map<string, V>)
    ensures (forall n :: SameAt(a, b, n)) <==> a == b
  {
    if forall n :: SameAt(a, b, n) {
      forall n
        ensures (n in a <==> n in b) && (n in a ==> a[n] == b[n])
      {
        assert SameAt(a, b, n);
      }
    }
  }

  lemma EntriesAgree(disk: Disk, targets: seq<Target>, job: Job, forced: Job, n: string)
    requires Distinct(targets) && AllBuild(targets, job, disk.sources) && forced == job.(force := true)
    ensures
      var a := VisitAll(targets, job, disk.sources, Start(disk));
      var b := VisitAll(targets, forced, disk.sources, Start(disk));
      a.Ok? && b.Ok? && SameAt(a.value.entries, b.value.entries, n)
  {
    RunSucceeds(targets, job, disk.sources, Start(disk));
    RunSucceeds(targets, forced, disk.sources, Start(disk));
    if t :| t in targets && job.Selects(t) && t.name == n {
      SelectedRecorded(targets, job, disk.sources, Start(disk), t);
      SelectedRecorded(targets, forced, disk.sources, Start(disk), t);
    } else {
      OthersKept(targets, job, disk.sources, Start(disk), n);
      OthersKept(targets, forced, disk.sources, Start(disk), n);
    }
  }

  lemma ArtifactsAgree(disk: Disk, targets: seq<Target>, job: Job, forced: Job, m: string)
    requires Distinct(targets) && AllBuild(targets, job, disk.sources) && forced == job.(force := true)
    ensures
      var a := VisitAll(targets, job, disk.sources, Start(disk));
      var b := VisitAll(targets, forced, disk.sources, Start(disk));
      && a.Ok? && b.Ok?
      && (SameAt(a.value.artifacts, b.value.artifacts, m) <==>
          forall t :: t in targets && t.mod == m && Skips(t, job, disk.Entries(), disk.sources) ==>
            UpToDate(t, job.config, disk))
  {
    RunSucceeds(targets, job, disk.sources, Start(disk));
    RunSucceeds(targets, forced, disk.sources, Start(disk));
    if t :| t in targets && job.Selects(t) && t.mod == m {
      SelectedRecorded(targets, job, disk.sources, Start(disk), t);
      SelectedRecorded(targets, forced, disk.sources, Start(disk), t);
      assert forall u :: u in targets && u.mod == m ==> u == t;
    } else {
      OthersKept(targets, job, disk.sources, Start(disk), m);
      OthersKept(targets, forced, disk.sources, Start(disk), m);
    }
  }

  /**
    On any disk at all, if the selected builds succeed then an unforced run and a forced one
    leave the same disk exactly when every target the unforced run skips is up to date.
   */
  lemma UnforcedEqualsForced(disk: Disk, targets: seq<Target>, job: Job)
    requires Distinct(targets) && AllBuild(targets, job, disk.sources)
    ensures CompileResult(disk, targets, job) == CompileResult(disk, targets, job.(force := true))
       <==> forall t :: t in targets && Skips(t, job, disk.Entries(), disk.sources) ==> UpToDate(t, job.config, disk)
  {
    var forced := job.(force := true);
    RunSucceeds(targets, job, disk.sources, Start(disk));
    RunSucceeds(targets, forced, disk.sources, Start(disk));
    var a := VisitAll(targets, job, disk.sources, Start(disk)).value;
    var b := VisitAll(targets, forced, disk.sources, Start(disk)).value;
    forall n { EntriesAgree(disk, targets, job, forced, n); }
    SameMap(a.entries, b.entries);
    forall m { ArtifactsAgree(disk, targets, job, forced, m); }
    SameMap(a.artifacts, b.artifacts);
    if CompileResult(disk, targets, job) == CompileResult(disk, targets, forced) {
      forall t | t in targets && Skips(t, job, disk.Entries(), disk.sources)
        ensures UpToDate(t, job.config, disk)
      {
        assert SameAt(a.artifacts, b.artifacts, t.mod);
      }
    }
  }

  /** After a run whose builds succeed, an unforced run of the same selection builds nothing. */
  lemma SecondRunBuildsNothing(disk: Disk, targets: seq<Target>, job: Job, again: Job)
    requires Distinct(targets) && AllBuild(targets, job, disk.sources)
    requires again == job.(force := false) && !job.config.forceRebuild
    ensures
      var disk' := CompileResult(disk, targets, job);
      && CompileResult(disk', targets, again) == disk'
      && VisitAll(targets, again, disk'.sources, Start(disk')).Ok?
      && VisitAll(targets, again, disk'.sources, Start(disk')).value.compiled == 0
  {
    var disk' := CompileResult(disk, targets, job);
    RunSucceeds(targets, job, disk.sources, Start(disk));
    forall t | t in targets && job.Selects(t)
      ensures Skips(t, again, disk'.Entries(), disk.sources)
    {
      SelectedRecorded(targets, job, disk.sources, Start(disk), t);
    }
    AllSkipped(targets, again, disk.sources, Start(disk'));
  }

  lemma {:induction false} AllSkipped(targets: seq<Target>, job: Job, sources: Sources, p: Progress)
    requires forall t :: t in targets && job.Selects(t) ==> Skips(t, job, p.entries, sources)
    ensures VisitAll(targets, job, sources, p).Ok?
    ensures VisitAll(targets, job, sources, p).value.(summary := p.summary) == p
    decreases |targets|
  {
    if targets != [] {
      assert targets[0] in targets && forall t :: t in targets[1..] ==> t in targets;
      AllSkipped(targets[1..], job, sources, Visit(targets[0], job, sources, p).value);
    }
  }

  // ---------------------------------------------------------------- histories

  datatype Event =
    | Compile(job: Job)
    | EditSources(sources: Sources)   // edit, add or delete any sources between runs
    | CleanOutputs                                // removes the state file and what lies under src/cython_ext
    | LoseState                                   // the state file becomes no JSON

  predicate UnderExtDir(mod: string) {
    "src.cython_ext." <= mod
  }

  function Apply(disk: Disk, targets: seq<Target>, e: Event): Disk {
    match e
    case Compile(job) => CompileResult(disk, targets, job)
    case EditSources(s) => disk.(sources := s)
    case CleanOutputs =>
      disk.(state := Missing, artifacts := map m | m in disk.artifacts && !UnderExtDir(m) :: disk.artifacts[m])
    case LoseState => disk.(state := Corrupt)
  }

  function ApplyAll(disk: Disk, targets: seq<Target>, history: seq<Event>): Disk
    decreases |history|
  {
    if history == [] then disk else ApplyAll(Apply(disk, targets, history[0]), targets, history[1..])
  }

  /** Every entry of the state file describes the artifact of its target, built with the given flags. */
  predicate Coherent(disk: Disk, targets: seq<Target>, flags: seq<string>) {
    forall t :: t in targets && t.name in disk.Entries() ==>
      var e := disk.Entries()[t.name];
      t.mod in disk.artifacts && disk.artifacts[t.mod] == Artifact(e.source, e.options, flags)
  }

  /** A selected target with an entry has lost its source. */
  predicate Gone(t: Target, job: Job, entries: map<string, Entry>, sources: Sources) {
    job.Selects(t) && t.name in entries && t.source !in sources
  }

  /** A run raises exactly when it is unforced and some target is gone. */
  predicate Raises(disk: Disk, targets: seq<Target>, job: Job) {
    && !job.force && !job.config.forceRebuild
    && exists t :: t in targets && Gone(t, job, disk.Entries(), disk.sources)
  }

  /** Each run uses the flags, none raises, and no build dies between unlinking and copying. */
  predicate Orderly(disk: Disk, targets: seq<Target>, flags: seq<string>, history: seq<Event>)
    decreases |history|
  {
    history != [] ==>
      && (history[0].Compile? ==>
            && history[0].job.config.flags == flags
            && !Raises(disk, targets, history[0].job)
            && forall t :: t in targets ==> history[0].job.OutcomeOf(t) != FailsInCopy)
      && Orderly(Apply(disk, targets, history[0]), targets, flags, history[1..])
  }

  lemma {:induction false} RunRaises(targets: seq<Target>, job: Job, sources: Sources, p: Progress)
    requires Distinct(targets)
    ensures VisitAll(targets, job, sources, p).Err? <==>
            !job.force && !job.config.forceRebuild && exists t :: t in targets && Gone(t, job, p.entries, sources)
    decreases |targets|
  {
    if targets != [] {
      var t, rest := targets[0], targets[1..];
      assert forall u :: u in targets <==> u == t || u in rest;
      assert Visit(t, job, sources, p).Err? <==>
        !job.force && !job.config.forceRebuild && Gone(t, job, p.entries, sources);
      if Visit(t, job, sources, p).Ok? {
        var q := Visit(t, job, sources, p).value;
        assert forall u :: u in rest ==> u.name != t.name;
        assert forall u :: u in rest ==> Gone(u, job, q.entries, sources) == Gone(u, job, p.entries, sources);
        RunRaises(rest, job, sources, q);
        assert !job.force && !job.config.forceRebuild ==> !Gone(t, job, p.entries, sources);
      }
    }
  }

  /** The guard Raises, which a caller can test before the run, decides whether the run raises. */
  lemma RaisesExactly(disk: Disk, targets: seq<Target>, job: Job)
    requires Distinct(targets)
    ensures VisitAll(targets, job, disk.sources, Start(disk)).Err? <==> Raises(disk, targets, job)
  {
    RunRaises(targets, job, disk.sources, Start(disk));
  }

  // ---------------------------------------------------------------- the report of a run

  /** The verdict on a selected target, from what the state file and the sources held before the run. */
  function Verdict(t: Target, job: Job, entries: map<string, Entry>, sources: Sources): Status {
    if Skips(t, job, entries, sources) then Cached else if job.Builds(t, sources) then Succeeded else Failed
  }

  function Report(targets: seq<Target>, job: Job, entries: map<string, Entry>, sources: Sources)
    : seq<(string, string, Status)>
  {
    if targets == [] then []
    else
      var t := targets[0];
      (if job.Selects(t) then [(t.name, t.mod, Verdict(t, job, entries, sources))] else [])
      + Report(targets[1..], job, entries, sources)
  }

  function Count(report: seq<(string, string, Status)>, st: Status): nat {
    if report == [] then 0 else (if report[0].2 == st then 1 else 0) + Count(report[1..], st)
  }

  lemma {:induction false} ReportDependsOnOwnEntries(targets: seq<Target>, job: Job, a: map<string, Entry>,
                                                     b: map<string, Entry>, sources: Sources)
    requires forall t :: t in targets ==> SameAt(a, b, t.name)
    ensures Report(targets, job, a, sources) == Report(targets, job, b, sources)
  {
    if targets != [] {
      assert targets[0] in targets && SameAt(a, b, targets[0].name);
      ReportDependsOnOwnEntries(targets[1..], job, a, b, sources);
    }
  }

  lemma CountCons(first: (string, string, Status), tail: seq<(string, string, Status)>, st: Status)
    ensures Count([first] + tail, st) == (if first.2 == st then 1 else 0) + Count(tail, st)
  {
    assert ([first] + tail)[1..] == tail;
  }

  /** From p to q the run has added the report and its counts. */
  predicate Reported(p: Progress, q: Progress, report: seq<(string, string, Status)>) {
    && q.summary == p.summary + report
    && q.compiled == p.compiled + Count(report, Succeeded)
    && q.failures == p.failures + Count(report, Failed)
  }

  lemma VisitReports(t: Target, job: Job, sources: Sources, p: Progress)
    requires Visit(t, job, sources, p).Ok?
    ensures Reported(p, Visit(t, job, sources, p).value, Report([t], job, p.entries, sources))
  {
    assert [t][1..] == [];
    if job.Selects(t) {
      CountCons((t.name, t.mod, Verdict(t, job, p.entries, sources)), [], Succeeded);
      CountCons((t.name, t.mod, Verdict(t, job, p.entries, sources)), [], Failed);
      var own := (t.name, t.mod, Verdict(t, job, p.entries, sources));
      assert [own] + [] == [own];
    }
  }

  lemma ReportAfterVisit(t: Target, rest: seq<Target>, job: Job, sources: Sources, p: Progress)
    requires Visit(t, job, sources, p).Ok? && forall u :: u in rest ==> u.name != t.name
    ensures Report(rest, job, Visit(t, job, sources, p).value.entries, sources) == Report(rest, job, p.entries, sources)
  {
    var q := Visit(t, job, sources, p).value;
    forall u | u in rest
      ensures SameAt(q.entries, p.entries, u.name)
    {
      VisitKeeps(t, job, sources, p, u.name);
    }
    ReportDependsOnOwnEntries(rest, job, q.entries, p.entries, sources);
  }

  lemma ReportSplit(targets: seq<Target>, job: Job, entries: map<string, Entry>, sources: Sources)
    requires targets != []
    ensures Report(targets, job, entries, sources) ==
            Report([targets[0]], job, entries, sources) + Report(targets[1..], job, entries, sources)
  {
    assert [targets[0]][1..] == [];
    assert Report([], job, entries, sources) == [];
  }

  lemma ReportedJoin(p: Progress, q: Progress, r: Progress, first: seq<(string, string, Status)>,
                     second: seq<(string, string, Status)>)
    requires Reported(p, q, first) && Reported(q, r, second) && |first| <= 1
    ensures Reported(p, r, first + second)
  {
    assert p.summary + first + second == p.summary + (first + second);
    if first == [] {
      assert first + second == second;
    } else {
      assert first == [first[0]] && first == [first[0]] + [];
      CountCons(first[0], second, Succeeded);
      CountCons(first[0], [], Succeeded);
      CountCons(first[0], second, Failed);
      CountCons(first[0], [], Failed);
    }
  }

  /** A run that does not raise judges each target as if it came first, and counts what it reports. */
  lemma {:induction false} SummaryIsReport(targets: seq<Target>, job: Job, sources: Sources, p: Progress)
    requires Distinct(targets) && VisitAll(targets, job, sources, p).Ok?
    ensures Reported(p, VisitAll(targets, job, sources, p).value, Report(targets, job, p.entries, sources))
    decreases |targets|
  {
    if targets != [] {
      var t, rest := targets[0], targets[1..];
      var q, last := Visit(t, job, sources, p).value, VisitAll(targets, job, sources, p).value;
      SummaryIsReport(rest, job, sources, q);
      ReportAfterVisit(t, rest, job, sources, p);
      VisitReports(t, job, sources, p);
      ReportSplit(targets, job, p.entries, sources);
      ReportedJoin(p, q, last, Report([t], job, p.entries, sources), Report(rest, job, p.entries, sources));
    }
  }

  lemma {:induction false} FailuresInReport(targets: seq<Target>, job: Job, entries: map<string, Entry>,
                                            sources: Sources)
    ensures Count(Report(targets, job, entries, sources), Failed) == 0 <==>
            forall t :: t in targets && job.Selects(t) ==> Skips(t, job, entries, sources) || job.Builds(t, sources)
  {
    if targets != [] {
      var t, rest := targets[0], targets[1..];
      assert forall u :: u in targets <==> u == t || u in rest;
      FailuresInReport(rest, job, entries, sources);
      var tail := Report(rest, job, entries, sources);
      CountCons((t.name, t.mod, Verdict(t, job, entries, sources)), tail, Failed);
      assert [] + tail == tail;
    }
  }

  /** The exit code is 0 exactly when each selected target was up to date by its hashes or has a source that builds. */
  lemma ExitsCleanExactly(disk: Disk, targets: seq<Target>, job: Job)
    requires Distinct(targets) && !Raises(disk, targets, job)
    ensures VisitAll(targets, job, disk.sources, Start(disk)).Ok?
    ensures VisitAll(targets, job, disk.sources, Start(disk)).value.failures == 0 <==>
            forall t :: t in targets && job.Selects(t) ==>
              Skips(t, job, disk.Entries(), disk.sources) || job.Builds(t, disk.sources)
  {
    RaisesExactly(disk, targets, job);
    SummaryIsReport(targets, job, disk.sources, Start(disk));
    FailuresInReport(targets, job, disk.Entries(), disk.sources);
  }

  // ---------------------------------------------------------------- one target of a run, field by field

  /** The selection is empty or holds the target's name or its module. */
  predicate TakesPart(t: Target, selected: set<string>) {
    selected == {} || t.name in selected || t.mod in selected
  }

  /** The state file has an entry of the target's name with the same source text and the same settings. */
  predicate Unchanged(t: Target, c: Config, disk: Disk) {
    && disk.state.Saved? && t.name in disk.state.entries && t.source in disk.sources
    && var e := disk.state.entries[t.name];
       && e.source == disk.sources[t.source]
       && e.options.languageLevel == c.languageLevel && e.options.annotate == c.annotate
       && e.options.profile == c.profile && e.options.mod == t.mod
  }

  predicate BuildSucceeds(t: Target, outcomes: map<string, Outcome>, sources: Sources) {
    t.source in sources && (t.name in outcomes ==> outcomes[t.name] == Succeeds)
  }

  /** The file system holds for the module what a build of this source with this configuration makes. */
  predicate BuiltFrom(a: Artifact, text: string, mod: string, c: Config) {
    && a.source == text && a.flags == c.flags
    && a.options.languageLevel == c.languageLevel && a.options.annotate == c.annotate
    && a.options.profile == c.profile && a.options.mod == mod
  }

  /** What becomes of a target's status, entry and artifact in one run. */
  predicate Treated(t: Target, job: Job, disk: Disk, q: Progress, before: map<string, Entry>) {
    if !TakesPart(t, job.selected) then
      && (forall st :: (t.name, t.mod, st) !in q.summary)
      && SameAt(q.entries, before, t.name) && SameAt(q.artifacts, disk.artifacts, t.mod)
    else if !job.force && !job.config.forceRebuild && Unchanged(t, job.config, disk) then
      && (forall st :: (t.name, t.mod, st) in q.summary <==> st == Cached)
      && SameAt(q.entries, before, t.name) && SameAt(q.artifacts, disk.artifacts, t.mod)
    else if BuildSucceeds(t, job.outcomes, disk.sources) then
      && (forall st :: (t.name, t.mod, st) in q.summary <==> st == Succeeded)
      && t.name in q.entries && t.mod in q.artifacts
      && BuiltFrom(q.artifacts[t.mod], disk.sources[t.source], t.mod, job.config)
      && q.entries[t.name] == Entry(q.artifacts[t.mod].source, q.artifacts[t.mod].options)
    else
      && (forall st :: (t.name, t.mod, st) in q.summary <==> st == Failed)
      && SameAt(q.entries, before, t.name)
      && (if t.source in disk.sources && t.name in job.outcomes && job.outcomes[t.name] == FailsInCopy
          then t.mod !in q.artifacts else SameAt(q.artifacts, disk.artifacts, t.mod))
  }

  lemma {:induction false} ReportHolds(targets: seq<Target>, job: Job, entries: map<string, Entry>, sources: Sources,
                                       t: Target, st: Status)
    requires Distinct(targets) && t in targets
    ensures (t.name, t.mod, st) in Report(targets, job, entries, sources)
       <==> job.Selects(t) && st == Verdict(t, job, entries, sources)
  {
    var u, rest := targets[0], targets[1..];
    ReportSplit(targets, job, entries, sources);
    assert [u][1..] == [] && Report([], job, entries, sources) == [];
    if t == u {
      NotReported(rest, job, entries, sources, t, st);
    } else {
      assert t in rest && u.name != t.name;
      ReportHolds(rest, job, entries, sources, t, st);
    }
  }

  lemma {:induction false} NotReported(targets: seq<Target>, job: Job, entries: map<string, Entry>, sources: Sources,
                                       t: Target, st: Status)
    requires forall u :: u in targets ==> u.name != t.name
    ensures (t.name, t.mod, st) !in Report(targets, job, entries, sources)
  {
    if targets != [] {
      assert targets[0] in targets && forall u :: u in targets[1..] ==> u in targets;
      NotReported(targets[1..], job, entries, sources, t, st);
    }
  }

  /** What a run leaves of a target is what visiting it leaves, with the entries and artifacts from before the run. */
  lemma {:induction false} OwnVisit(targets: seq<Target>, job: Job, sources: Sources, p: Progress, t: Target)
    requires Distinct(targets) && t in targets && VisitAll(targets, job, sources, p).Ok?
    ensures Visit(t, job, sources, p).Ok?
    ensures
      var q, own := VisitAll(targets, job, sources, p).value, Visit(t, job, sources, p).value;
      SameAt(q.entries, own.entries, t.name) && SameAt(q.artifacts, own.artifacts, t.mod)
    decreases |targets|
  {
    var u, rest := targets[0], targets[1..];
    var p' := Visit(u, job, sources, p).value;
    if u == t {
      OthersKept(rest, job, sources, p', t.name);
      OthersKept(rest, job, sources, p', t.mod);
      assert forall v :: v in rest ==> v.name != t.name && v.mod != t.mod;
    } else {
      assert t in rest && u.name != t.name && u.mod != t.mod;
      VisitKeeps(u, job, sources, p, t.name);
      VisitKeeps(u, job, sources, p, t.mod);
      OwnVisit(rest, job, sources, p', t);
      VisitLocal(t, job, sources, p, p');
    }
  }

  /** Visiting a target looks at and changes nothing but its own entry and artifact. */
  lemma VisitLocal(t: Target, job: Job, sources: Sources, p: Progress, q: Progress)
    requires SameAt(p.entries, q.entries, t.name) && SameAt(p.artifacts, q.artifacts, t.mod)
    ensures Visit(t, job, sources, p).Ok? <==> Visit(t, job, sources, q).Ok?
    ensures
      Visit(t, job, sources, p).Ok? ==>
        var a, b := Visit(t, job, sources, p).value, Visit(t, job, sources, q).value;
        SameAt(a.entries, b.entries, t.name) && SameAt(a.artifacts, b.artifacts, t.mod)
  {
  }

  /**
    In a run that does not raise each target is reported, recorded and built by its own source,
    settings, entry and outcome alone, whatever the other targets do.
   */
  lemma EachTargetIsTreated(disk: Disk, targets: seq<Target>, job: Job, t: Target)
    requires Distinct(targets) && t in targets && VisitAll(targets, job, disk.sources, Start(disk)).Ok?
    ensures Treated(t, job, disk, VisitAll(targets, job, disk.sources, Start(disk)).value, disk.Entries())
  {
    var p := Start(disk);
    var q := VisitAll(targets, job, disk.sources, p).value;
    OwnVisit(targets, job, disk.sources, p, t);
    SummaryIsReport(targets, job, disk.sources, p);
    assert q.summary == Report(targets, job, disk.Entries(), disk.sources);
    forall st
      ensures (t.name, t.mod, st) in q.summary <==>
              job.Selects(t) && st == Verdict(t, job, disk.Entries(), disk.sources)
    {
      ReportHolds(targets, job, disk.Entries(), disk.sources, t, st);
    }
    TreatedByVisit(t, job, disk, q);
  }

  lemma TreatedByVisit(t: Target, job: Job, disk: Disk, q: Progress)
    requires Visit(t, job, disk.sources, Start(disk)).Ok?
    requires
      var own := Visit(t, job, disk.sources, Start(disk)).value;
      SameAt(q.entries, own.entries, t.name) && SameAt(q.artifacts, own.artifacts, t.mod)
    requires forall st :: (t.name, t.mod, st) in q.summary <==>
                            job.Selects(t) && st == Verdict(t, job, disk.Entries(), disk.sources)
    ensures Treated(t, job, disk, q, disk.Entries())
  {
  }

  /**
    After a target was built, a later unforced run over any edited sources, even of another
    target of that name, reports it as cached exactly when the source text, the language level,
    annotate, profile and the module are all the same; the flags make no difference.
   */
  lemma CachedExactly(disk: Disk, targets: seq<Target>, job: Job, t: Target, sources: Sources, targets': seq<Target>,
                      job': Job, t': Target)
    requires Distinct(targets) && t in targets && TakesPart(t, job.selected)
    requires BuildSucceeds(t, job.outcomes, disk.sources) && VisitAll(targets, job, disk.sources, Start(disk)).Ok?
    requires Distinct(targets') && t' in targets' && t'.name == t.name && TakesPart(t', job'.selected)
    requires !job'.force && !job'.config.forceRebuild
    ensures
      var disk' := CompileResult(disk, targets, job).(sources := sources);
      var r := VisitAll(targets', job', sources, Start(disk'));
      && (r.Ok? ==> t'.source in sources)
      && (r.Ok? ==> ((t'.name, t'.mod, Cached) in r.value.summary <==>
            && disk.sources[t.source] == sources[t'.source] && t.mod == t'.mod
            && job.config.languageLevel == job'.config.languageLevel
            && job.config.annotate == job'.config.annotate && job.config.profile == job'.config.profile))
  {
    var disk' := CompileResult(disk, targets, job).(sources := sources);
    EachTargetIsTreated(disk, targets, job, t);
    var r := VisitAll(targets', job', sources, Start(disk'));
    if r.Ok? {
      EachTargetIsTreated(disk', targets', job', t');
      OwnVisit(targets', job', sources, Start(disk'), t');
    }
  }

  /** After cleaning, nothing is cached, and no artifact of the extension package is left. */
  lemma CleaningForgets(disk: Disk, targets: seq<Target>, job: Job, t: Target)
    requires Distinct(targets) && t in targets
    ensures
      var clean := Apply(disk, targets, CleanOutputs);
      var r := VisitAll(targets, job, clean.sources, Start(clean));
      && (forall m :: m in clean.artifacts <==> m in disk.artifacts && !("src.cython_ext." <= m))
      && r.Ok? && (t.name, t.mod, Cached) !in r.value.summary
  {
    var clean := Apply(disk, targets, CleanOutputs);
    RaisesExactly(clean, targets, job);
    EachTargetIsTreated(clean, targets, job, t);
  }

  // ---------------------------------------------------------------- entries stay descriptions

  predicate CoherentIn(p: Progress, all: seq<Target>, flags: seq<string>) {
    forall t :: t in all && t.name in p.entries ==>
      t.mod in p.artifacts && p.artifacts[t.mod] == Artifact(p.entries[t.name].source, p.entries[t.name].options, flags)
  }

  lemma {:induction false} RunKeepsCoherent(targets: seq<Target>, all: seq<Target>, job: Job, sources: Sources,
                                            p: Progress)
    requires Distinct(all) && (forall t :: t in targets ==> t in all) && CoherentIn(p, all, job.config.flags)
    requires forall t :: t in targets ==> job.OutcomeOf(t) != FailsInCopy
    requires VisitAll(targets, job, sources, p).Ok?
    ensures CoherentIn(VisitAll(targets, job, sources, p).value, all, job.config.flags)
    decreases |targets|
  {
    if targets != [] {
      var t := targets[0];
      assert t in all;
      assert forall u :: u in all && u != t ==> u.name != t.name && u.mod != t.mod;
      var q := Visit(t, job, sources, p).value;
      assert CoherentIn(q, all, job.config.flags);
      RunKeepsCoherent(targets[1..], all, job, sources, q);
    }
  }

  lemma {:induction false} HistoryKeepsCoherent(disk: Disk, targets: seq<Target>, flags: seq<string>,
                                                history: seq<Event>)
    requires Distinct(targets) && Coherent(disk, targets, flags) && Orderly(disk, targets, flags, history)
    ensures Coherent(ApplyAll(disk, targets, history), targets, flags)
    decreases |history|
  {
    if history != [] {
      if history[0].Compile? {
        RaisesExactly(disk, targets, history[0].job);
        RunKeepsCoherent(targets, targets, history[0].job, disk.sources, Start(disk));
      }
      HistoryKeepsCoherent(Apply(disk, targets, history[0]), targets, flags, history[1..]);
    }
  }

  const EMPTY: Disk := Disk(map[], map[], Missing)

  /**
    After any orderly history an unforced run whose builds succeed leaves the disk a forced
    rebuild would leave, exactly when the compile flags are the history's or nothing is skipped.
   */
  lemma IncrementalEqualsRebuild(targets: seq<Target>, flags: seq<string>, history: seq<Event>, job: Job)
    requires Distinct(targets) && Orderly(EMPTY, targets, flags, history)
    requires AllBuild(targets, job, ApplyAll(EMPTY, targets, history).sources)
    ensures
      var disk := ApplyAll(EMPTY, targets, history);
      CompileResult(disk, targets, job) == CompileResult(disk, targets, job.(force := true))
      <==> job.config.flags == flags || forall t :: t in targets ==> !Skips(t, job, disk.Entries(), disk.sources)
  {
    var disk := ApplyAll(EMPTY, targets, history);
    HistoryKeepsCoherent(EMPTY, targets, flags, history);
    UnforcedEqualsForced(disk, targets, job);
  }

  // ---------------------------------------------------------------- the three ways out of order

  const TARGET_A: Target := Target("a", "src.cython_ext.a", "a.py")
  const TARGET_B: Target := Target("b", "src.cython_ext.b", "b.py")

  function Run(force: bool, flags: seq<string>, outcome: Outcome): Job {
    Job(Config(3, true, false, false, flags), {}, force, map["a" := outcome])
  }

  lemma RunOfOne(disk: Disk, t: Target, job: Job)
    ensures CompileResult(disk, [t], job) == Finish(disk, Visit(t, job, disk.sources, Start(disk)))
  {
    assert [t][1..] == [];
    var r := Visit(t, job, disk.sources, Start(disk));
    assert r.Ok? ==> VisitAll([], job, disk.sources, r.value) == r;
  }

  /** A copy that fails after the unlink loses the artifact, and the next run still skips its target. */
  lemma FailedCopyLosesTheArtifact() returns (disk: Disk)
    ensures
      disk == ApplyAll(EMPTY, [TARGET_A], [EditSources(map["a.py" := "x"]), Compile(Run(false, [], Succeeds)),
                                           Compile(Run(true, [], FailsInCopy))])
    ensures Skips(TARGET_A, Run(false, [], Succeeds), disk.Entries(), disk.sources) && TARGET_A.mod !in disk.artifacts
  {
    var first, second := Run(false, [], Succeeds), Run(true, [], FailsInCopy);
    var d1 := Apply(EMPTY, [TARGET_A], EditSources(map["a.py" := "x"]));
    RunOfOne(d1, TARGET_A, first);
    var d2 := Apply(d1, [TARGET_A], Compile(first));
    RunOfOne(d2, TARGET_A, second);
    disk := Apply(d2, [TARGET_A], Compile(second));
    assert ApplyAll(disk, [TARGET_A], []) == disk;
    HistoryOfThree(EMPTY, [TARGET_A], EditSources(map["a.py" := "x"]), Compile(first), Compile(second));
  }

  lemma HistoryOfThree(disk: Disk, targets: seq<Target>, e: Event, f: Event, g: Event)
    ensures ApplyAll(disk, targets, [e, f, g]) == Apply(Apply(Apply(disk, targets, e), targets, f), targets, g)
  {
    assert [e, f, g][1..] == [f, g] && [f, g][1..] == [g] && [g][1..] == [];
    var d := Apply(Apply(Apply(disk, targets, e), targets, f), targets, g);
    assert ApplyAll(d, targets, []) == d;
    assert ApplyAll(Apply(Apply(disk, targets, e), targets, f), targets, [g]) == d;
    assert ApplyAll(Apply(disk, targets, e), targets, [f, g]) == d;
  }

  /** _hash_options leaves the flags out, so changed flags do not rebuild. */
  lemma ChangedFlagsAreSkipped() returns (disk: Disk)
    ensures
      disk == ApplyAll(EMPTY, [TARGET_A], [EditSources(map["a.py" := "x"]), Compile(Run(false, ["-O2"], Succeeds)),
                                           EditSources(map["a.py" := "x"])])
    ensures Skips(TARGET_A, Run(false, ["-O3"], Succeeds), disk.Entries(), disk.sources)
    ensures CompileResult(disk, [TARGET_A], Run(false, ["-O3"], Succeeds)) !=
            CompileResult(disk, [TARGET_A], Run(true, ["-O3"], Succeeds))
  {
    var first, edit := Run(false, ["-O2"], Succeeds), EditSources(map["a.py" := "x"]);
    var d1 := Apply(EMPTY, [TARGET_A], edit);
    RunOfOne(d1, TARGET_A, first);
    disk := Apply(Apply(d1, [TARGET_A], Compile(first)), [TARGET_A], edit);
    HistoryOfThree(EMPTY, [TARGET_A], edit, Compile(first), edit);
    UnforcedEqualsForced(disk, [TARGET_A], Run(false, ["-O3"], Succeeds));
    assert TARGET_A in [TARGET_A] && !UpToDate(TARGET_A, Run(false, ["-O3"], Succeeds).config, disk);
  }

  /**
    A run that raises on b has already replaced a's artifact without saving a's entry: once the
    sources are put back, a is skipped with an artifact of other contents.
   */
  lemma RaisingRunLeavesStaleArtifact() returns (disk: Disk)
    ensures
      var both := map["a.py" := "x", "b.py" := "y"];
      var built := ApplyAll(EMPTY, [TARGET_A, TARGET_B], [EditSources(both), Compile(Run(false, [], Succeeds)),
                                                          EditSources(map["a.py" := "z"])]);
      && Raises(built, [TARGET_A, TARGET_B], Run(false, [], Succeeds))
      && disk == CompileResult(built, [TARGET_A, TARGET_B], Run(false, [], Succeeds)).(sources := both)
    ensures Skips(TARGET_A, Run(false, [], Succeeds), disk.Entries(), disk.sources)
    ensures TARGET_A.mod in disk.artifacts && disk.artifacts[TARGET_A.mod].source == "z"
  {
    var job := Run(false, [], Succeeds);
    var e, f := EditSources(map["a.py" := "x", "b.py" := "y"]), EditSources(map["a.py" := "z"]);
    HistoryOfThree(EMPTY, [TARGET_A, TARGET_B], e, Compile(job), f);
    var d1 := Apply(EMPTY, [TARGET_A, TARGET_B], e);
    RunOfTwo(d1, job);
    var built := Apply(Apply(d1, [TARGET_A, TARGET_B], Compile(job)), [TARGET_A, TARGET_B], f);
    assert TARGET_B in [TARGET_A, TARGET_B] && TARGET_B.source !in built.sources && TARGET_B.name in built.Entries();
    RunOfTwo(built, job);
    disk := CompileResult(built, [TARGET_A, TARGET_B], job).(sources := map["a.py" := "x", "b.py" := "y"]);
  }

  lemma RunOfTwo(disk: Disk, job: Job)
    ensures
      var first := Visit(TARGET_A, job, disk.sources, Start(disk));
      VisitAll([TARGET_A, TARGET_B], job, disk.sources, Start(disk)) ==
        if first.Ok? then Visit(TARGET_B, job, disk.sources, first.value) else first
  {
    assert [TARGET_A, TARGET_B][1..] == [TARGET_B] && [TARGET_B][1..] == [];
    var first := Visit(TARGET_A, job, disk.sources, Start(disk));
    if first.Ok? {
      var second := Visit(TARGET_B, job, disk.sources, first.value);
      assert second.Ok? ==> VisitAll([], job, disk.sources, second.value) == second;
      assert VisitAll([TARGET_B], job, disk.sources, first.value) == second;
    }
  }
}
