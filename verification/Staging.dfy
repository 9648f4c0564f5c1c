/** Staging the verified artifacts and swapping the result in, tools/prepare_android_private_artifacts.py.
    A directory is the map of its files; every step may fail, a failed removal leaves any part behind,
    a rename is atomic, and the exception handler itself completes. */
module Staging {
  import opened Wrappers
  import opened Paths
  import opened ArtifactLock
  import opened Characters

  type Tree = map<Path, string>

  const MANIFEST: Path := ["artifact-manifest.json"]

  const BLOCK: nat := 1024 * 1024

  /** `shutil.rmtree`: gone, or stopped with some files still there. */
  datatype Removal = Removed | Stuck(kept: set<Path>)

  /** What goes wrong in one run. `copied` are the source files as copying reads them, `stored` the
      staged files as reading them back shows them. */
  datatype Conditions = Conditions(copied: Tree, stored: Tree, tempFails: bool, copyFailsAt: Option<nat>,
                                   manifestFails: bool,
                                   clear: Removal, retireFails: bool, promoteFails: bool, drop: Removal)

  // ---------- building the new tree

  predicate Collides(tree: Tree, target: Path) {
    exists p <- tree.Keys :: IsPrefix(p, target) || IsPrefix(target, p)
  }

  /** One artifact staged: copied as locked, and read back as locked. */
  predicate CopyWorks(tree: Tree, a: Artifact, c: Conditions, digest: string -> string) {
    && !Collides(tree, a.target)
    && a.source in c.copied && |c.copied[a.source]| == a.size && digest(c.copied[a.source]) == a.sha256
    && a.target in c.stored && |c.stored[a.target]| == a.size && digest(c.stored[a.target]) == a.sha256
  }

  /** The staged files after the first `n` artifacts; `None` when an exception stopped the copying. */
  function BuildFiles(selected: seq<Artifact>, n: nat, c: Conditions, digest: string -> string): Option<Tree>
    requires n <= |selected|
  {
    if n == 0 then Some(map[])
    else
      match BuildFiles(selected, n - 1, c, digest)
      case None => None
      case Some(tree) =>
        var a := selected[n - 1];
        if c.copyFailsAt != Some(n - 1) && CopyWorks(tree, a, c, digest) then Some(tree[a.target := c.stored[a.target]])
        else None
  }

  function BuildTree(selected: seq<Artifact>, manifest: string, c: Conditions, digest: string -> string): Option<Tree> {
    match BuildFiles(selected, |selected|, c, digest)
    case Some(tree) => if c.manifestFails || Collides(tree, MANIFEST) then None else Some(tree[MANIFEST := manifest])
    case None => None
  }

  /** Copies block by block, hashing what it writes. */
  method CopyBlocks(source: string, digest: string -> string) returns (written: string, copiedDigest: string)
    ensures written == source && copiedDigest == digest(source)
  {
    written := "";
    var position := 0;
    while position < |source|
      invariant position <= |source| && written == source[..position]
    {
      var next := if position + BLOCK < |source| then position + BLOCK else |source|;
      var block := source[position..next];
      written := written + block;
      position := next;
    }
    copiedDigest := digest(written);
  }

  method Build(selected: seq<Artifact>, manifest: string, c: Conditions, digest: string -> string)
    returns (tree: Option<Tree>)
    ensures tree == BuildTree(selected, manifest, c, digest)
  {
    hide CopyWorks;
    var staged: Tree := map[];
    for k := 0 to |selected|
      invariant BuildFiles(selected, k, c, digest) == Some(staged)
    {
      var next := StageOne(staged, selected[k], k, c, digest);
      if next.None? {
        StaysFailed(selected, k, |selected|, c, digest);
        return None;
      }
      staged := next.value;
    }
    if c.manifestFails || Collides(staged, MANIFEST) {
      return None;
    }
    tree := Some(staged[MANIFEST := manifest]);
  }

  /** Copies one artifact and reads it back. */
  method StageOne(staged: Tree, a: Artifact, k: nat, c: Conditions, digest: string -> string)
    returns (next: Option<Tree>)
    ensures next ==
      if c.copyFailsAt != Some(k) && CopyWorks(staged, a, c, digest) then Some(staged[a.target := c.stored[a.target]])
      else None
  {
    if c.copyFailsAt == Some(k) || a.source !in c.copied || Collides(staged, a.target) {
      return None;
    }
    var written, copiedDigest := CopyBlocks(c.copied[a.source], digest);
    if |written| != a.size || copiedDigest != a.sha256 {
      return None;
    }
    if a.target !in c.stored || |c.stored[a.target]| != a.size || digest(c.stored[a.target]) != a.sha256 {
      return None;
    }
    next := Some(staged[a.target := c.stored[a.target]]);
  }

  lemma {:induction false} StaysFailed(selected: seq<Artifact>, k: nat, n: nat, c: Conditions, digest: string -> string)
    requires k < n <= |selected| && BuildFiles(selected, k + 1, c, digest).None?
    ensures BuildFiles(selected, n, c, digest).None?
  {
    if k + 1 < n { StaysFailed(selected, k, n - 1, c, digest); }
  }

  // ---------- the swap

  datatype Outcome = Done | Raised

  function Remove(tree: Tree, removal: Removal): Option<Tree> {
    match removal
    case Removed => None
    case Stuck(kept) => Some(map p | p in tree && p in kept :: tree[p])
  }

  /** The two lasting directories: `output_root` and `.{output}.previous`. */
  datatype State = State(output: Option<Tree>, backup: Option<Tree>)

  /** The exception handler's last step. */
  function Recover(s: State): State {
    if s.output.None? && s.backup.Some? then State(s.backup, None) else s
  }

  /** One run on the lasting directories, `built` being the staged tree if copying finished. */
  function RunOnce(s: State, built: Option<Tree>, c: Conditions): (State, Outcome) {
    if c.tempFails then (s, Raised)
    else if built.None? then (Recover(s), Raised)
    else
      var cleared := if s.backup.Some? then Remove(s.backup.value, c.clear) else None;
      if cleared.Some? then (Recover(State(s.output, cleared)), Raised)
      else if s.output.Some? && c.retireFails then (Recover(State(s.output, None)), Raised)
      else if c.promoteFails then (Recover(State(None, s.output)), Raised)
      else
        var left := if s.output.Some? then Remove(s.output.value, c.drop) else None;
        (Recover(State(built, left)), if left.Some? then Raised else Done)
  }

  class Directories {
    var output: Option<Tree>
    var backup: Option<Tree>

    function Value(): State
      reads this
    {
      State(output, backup)
    }

    /** The exception handler. */
    method Restore()
      modifies this
      ensures Value() == Recover(old(Value()))
    {
      if output.None? && backup.Some? {
        output, backup := backup, None;
      }
    }

    /** Staging into a temporary directory, then the renames. */
    method StageArtifacts(selected: seq<Artifact>, manifest: string, c: Conditions, digest: string -> string)
      returns (outcome: Outcome)
      modifies this
      ensures (Value(), outcome) == RunOnce(old(Value()), BuildTree(selected, manifest, c, digest), c)
    {
      if c.tempFails {
        return Raised;
      }
      var temp := Build(selected, manifest, c, digest);
      if temp.None? {
        Restore();
        return Raised;
      }
      if backup.Some? {
        backup := Remove(backup.value, c.clear);
        if backup.Some? {
          Restore();
          return Raised;
        }
      }
      if output.Some? {
        if c.retireFails {
          Restore();
          return Raised;
        }
        output, backup := None, output;
      }
      if c.promoteFails {
        Restore();
        return Raised;
      }
      output := temp;
      if backup.Some? {
        backup := Remove(backup.value, c.drop);
        if backup.Some? {
          Restore();
          return Raised;
        }
      }
      outcome := Done;
    }
  }

  // ---------- all or nothing

  /** The output is there, or no leftover of an earlier run could be mistaken for it. */
  predicate Safe(s: State) {
    s.output.Some? || s.backup.None?
  }

  /** One run from a safe state: the output is the old one or the new one, whole; it never disappears;
      success means the new one without a leftover; and the state stays safe. */
  lemma RunIsAllOrNothing(s: State, built: Option<Tree>, c: Conditions)
    requires Safe(s)
    ensures var (after, outcome) := RunOnce(s, built, c);
      && Safe(after)
      && (after.output == s.output || (built.Some? && after.output == built))
      && (s.output.Some? ==> after.output.Some?)
      && (outcome == Done ==> built.Some? && after == State(built, None))
      && (outcome == Raised && after.output != s.output ==> after.backup.Some? && c.drop.Stuck?)
  {
  }

  /** A run keeps the promise for every course of events exactly from the safe states. */
  lemma SafeIsNeeded(s: State, built: Option<Tree>)
    requires built.Some? ==> built.value != map[]
    ensures Safe(s) <==>
      forall c: Conditions ::
        RunOnce(s, built, c).0.output == s.output || (built.Some? && RunOnce(s, built, c).0.output == built)
  {
    if Safe(s) {
      forall c: Conditions
        ensures RunOnce(s, built, c).0.output == s.output || (built.Some? && RunOnce(s, built, c).0.output == built)
      {
        RunIsAllOrNothing(s, built, c);
      }
    } else {
      var c := Conditions(map[], map[], false, None, false, Stuck({}), false, false, Removed);
      assert Remove(s.backup.value, Stuck({})) == Some(map[]);
      assert RunOnce(s, built, c).0.output == if built.None? then s.backup else Some(map[]);
    }
  }

  // ---------- many runs

  datatype Attempt = Attempt(selected: seq<Artifact>, manifest: string, conditions: Conditions)

  function BuiltBy(a: Attempt, digest: string -> string): Option<Tree> {
    BuildTree(a.selected, a.manifest, a.conditions, digest)
  }

  function RunAll(s: State, attempts: seq<Attempt>, digest: string -> string): State {
    if attempts == [] then s
    else
      var a := attempts[|attempts| - 1];
      RunOnce(RunAll(s, attempts[..|attempts| - 1], digest), BuiltBy(a, digest), a.conditions).0
  }

  /** After any runs, failing anywhere: the output is the initial one or one whole tree that some run built,
      and once present it stays present. */
  lemma {:induction false} RunsAreAllOrNothing(s: State, attempts: seq<Attempt>, digest: string -> string)
    requires Safe(s)
    ensures var after := RunAll(s, attempts, digest);
      && Safe(after)
      && (s.output.Some? ==> after.output.Some?)
      && (after.output == s.output
          || (after.output.Some? && exists i :: 0 <= i < |attempts| && BuiltBy(attempts[i], digest) == after.output))
  {
    hide RunOnce, BuiltBy;
    if attempts != [] {
      var init, a := attempts[..|attempts| - 1], attempts[|attempts| - 1];
      RunsAreAllOrNothing(s, init, digest);
      var before := RunAll(s, init, digest);
      RunIsAllOrNothing(before, BuiltBy(a, digest), a.conditions);
      var after := RunAll(s, attempts, digest);
      if after.output == before.output && before.output != s.output {
        var i :| 0 <= i < |init| && BuiltBy(init[i], digest) == before.output;
        assert attempts[i] == init[i];
      }
    }
  }

  // ---------- what a staged tree holds

  ghost function Targets(selected: seq<Artifact>, n: nat): set<Path>
    requires n <= |selected|
  {
    set i | 0 <= i < n :: selected[i].target
  }

  /** The tree holds the locked bytes of one artifact. */
  ghost predicate Holds(tree: Tree, a: Artifact, digest: string -> string) {
    a.target in tree && digest(tree[a.target]) == a.sha256 && |tree[a.target]| == a.size
  }

  /** The locked targets with the locked digests and sizes, the manifest, and nothing else. */
  ghost predicate HoldsExactly(tree: Tree, selected: seq<Artifact>, manifest: string, digest: string -> string) {
    && tree.Keys == Targets(selected, |selected|) + {MANIFEST}
    && MANIFEST == ["artifact-manifest.json"] && MANIFEST in tree && tree[MANIFEST] == manifest
    && forall i :: 0 <= i < |selected| ==> Holds(tree, selected[i], digest)
  }

  lemma {:induction false} FileKeys(selected: seq<Artifact>, n: nat, c: Conditions, digest: string -> string)
    requires n <= |selected| && BuildFiles(selected, n, c, digest).Some?
    ensures BuildFiles(selected, n, c, digest).value.Keys == Targets(selected, n)
  {
    hide CopyWorks, Targets;
    TargetsGrow(selected, n);
    if n > 0 { FileKeys(selected, n - 1, c, digest); }
  }

  lemma TargetsGrow(selected: seq<Artifact>, n: nat)
    requires n <= |selected|
    ensures n == 0 ==> Targets(selected, n) == {}
    ensures n > 0 ==> Targets(selected, n) == Targets(selected, n - 1) + {selected[n - 1].target}
  {
  }

  lemma {:induction false} FilesHold(selected: seq<Artifact>, n: nat, c: Conditions, digest: string -> string, i: nat)
    requires i < n <= |selected| && BuildFiles(selected, n, c, digest).Some?
    ensures Holds(BuildFiles(selected, n, c, digest).value, selected[i], digest)
  {
    hide Collides;
    if i < n - 1 {
      FilesHold(selected, n - 1, c, digest, i);
      NoCollision(BuildFiles(selected, n - 1, c, digest).value, selected[n - 1].target);
    }
  }

  lemma NoCollision(tree: Tree, target: Path)
    requires !Collides(tree, target)
    ensures target !in tree
  {
    if target in tree { assert IsPrefix(target, target); }
  }

  /** A successful run leaves exactly the locked files and the manifest, and no leftover. */
  lemma SuccessStagesExactly(s: State, selected: seq<Artifact>, manifest: string, c: Conditions,
                             digest: string -> string)
    requires RunOnce(s, BuildTree(selected, manifest, c, digest), c).1 == Done
    ensures var after := RunOnce(s, BuildTree(selected, manifest, c, digest), c).0;
      && after.output.Some? && after.backup.None?
      && HoldsExactly(after.output.value, selected, manifest, digest)
  {
    hide Collides, BuildFiles, Targets;
    var files := BuildFiles(selected, |selected|, c, digest).value;
    FileKeys(selected, |selected|, c, digest);
    forall i | 0 <= i < |selected| ensures Holds(files, selected[i], digest) {
      FilesHold(selected, |selected|, c, digest, i);
    }
    NoCollision(BuildFiles(selected, |selected|, c, digest).value, MANIFEST);
  }

  /** The conditions under which nothing goes wrong. */
  ghost predicate Undisturbed(selected: seq<Artifact>, sources: Tree, c: Conditions) {
    && c.copied == sources
    && (forall i :: 0 <= i < |selected| ==>
         selected[i].target in c.stored && selected[i].source in sources
           && c.stored[selected[i].target] == sources[selected[i].source])
    && !c.tempFails && c.copyFailsAt.None? && !c.manifestFails
    && c.clear.Removed? && !c.retireFails && !c.promoteFails && c.drop.Removed?
  }

  ghost predicate NoneInside(selected: seq<Artifact>) {
    forall i, j :: 0 <= i < |selected| && 0 <= j < |selected| && i != j ==>
      !IsPrefix(selected[i].target, selected[j].target)
  }

  lemma {:induction false} UndisturbedFiles(selected: seq<Artifact>, n: nat, sources: Tree, c: Conditions,
                                            digest: string -> string)
    requires n <= |selected| && Undisturbed(selected, sources, c) && NoneInside(selected)
    requires forall i :: 0 <= i < |selected| ==> SourceMatches(selected[i], sources, digest)
    ensures BuildFiles(selected, n, c, digest).Some?
  {
    if n > 0 {
      UndisturbedFiles(selected, n - 1, sources, c, digest);
      FileKeys(selected, n - 1, c, digest);
      var before, a := BuildFiles(selected, n - 1, c, digest).value, selected[n - 1];
      forall p | p in before ensures !IsPrefix(p, a.target) && !IsPrefix(a.target, p) {
        var i :| 0 <= i < n - 1 && selected[i].target == p;
      }
    }
  }

  lemma {:induction false} EarlierBuilt(selected: seq<Artifact>, k: nat, n: nat, c: Conditions,
                                        digest: string -> string)
    requires k <= n <= |selected| && BuildFiles(selected, n, c, digest).Some?
    ensures BuildFiles(selected, k, c, digest).Some?
  {
    if k < n { EarlierBuilt(selected, k, n - 1, c, digest); }
  }

  /** No run, whatever happens, stages a target that lies inside another. */
  lemma DoneMeansNoneInside(s: State, selected: seq<Artifact>, manifest: string, c: Conditions,
                            digest: string -> string)
    requires RunOnce(s, BuildTree(selected, manifest, c, digest), c).1 == Done
    ensures NoneInside(selected)
  {
    hide BuildFiles;
    forall i, j | 0 <= i < j < |selected|
      ensures !IsPrefix(selected[i].target, selected[j].target) && !IsPrefix(selected[j].target, selected[i].target)
    {
      BuiltApart(selected, i, j, c, digest);
    }
  }

  lemma BuiltApart(selected: seq<Artifact>, i: nat, j: nat, c: Conditions, digest: string -> string)
    requires i < j < |selected| && BuildFiles(selected, |selected|, c, digest).Some?
    ensures !IsPrefix(selected[i].target, selected[j].target) && !IsPrefix(selected[j].target, selected[i].target)
  {
    hide IsPrefix, BuildFiles, CopyWorks;
    EarlierBuilt(selected, j + 1, |selected|, c, digest);
    AddedApart(selected, j, c, digest);
    FileKeys(selected, j, c, digest);
    assert selected[i].target in Targets(selected, j);
  }

  lemma AddedApart(selected: seq<Artifact>, j: nat, c: Conditions, digest: string -> string)
    requires j < |selected| && BuildFiles(selected, j + 1, c, digest).Some?
    ensures BuildFiles(selected, j, c, digest).Some?
    ensures !Collides(BuildFiles(selected, j, c, digest).value, selected[j].target)
  {
    hide Collides;
  }

  /** Left undisturbed, verified artifacts of a valid lock are staged exactly when no target lies
      inside another. */
  lemma UndisturbedRunExactly(s: State, selected: seq<Artifact>, manifest: string, sources: Tree, c: Conditions,
                              digest: string -> string)
    requires Undisturbed(selected, sources, c)
    requires forall i :: 0 <= i < |selected| ==>
      SourceMatches(selected[i], sources, digest) && TargetAllowed(selected[i].target)
    ensures RunOnce(s, BuildTree(selected, manifest, c, digest), c).1 == Done <==> NoneInside(selected)
  {
    hide BuildFiles, NoneInside, SourceMatches, TargetAllowed;
    if RunOnce(s, BuildTree(selected, manifest, c, digest), c).1 == Done {
      DoneMeansNoneInside(s, selected, manifest, c, digest);
    }
    if NoneInside(selected) {
      UndisturbedFiles(selected, |selected|, sources, c, digest);
      ManifestApart(selected, c, digest);
    }
  }

  lemma ManifestApart(selected: seq<Artifact>, c: Conditions, digest: string -> string)
    requires BuildFiles(selected, |selected|, c, digest).Some?
    requires forall i :: 0 <= i < |selected| ==> TargetAllowed(selected[i].target)
    ensures !Collides(BuildFiles(selected, |selected|, c, digest).value, MANIFEST)
  {
    hide BuildFiles;
    FileKeys(selected, |selected|, c, digest);
    var tree := BuildFiles(selected, |selected|, c, digest).value;
    forall p | p in tree ensures !IsPrefix(p, MANIFEST) && !IsPrefix(MANIFEST, p) {
      var i :| 0 <= i < |selected| && selected[i].target == p;
      var j :| 0 <= j < |ALLOWED_PREFIXES| && IsPrefix(ALLOWED_PREFIXES[j], p);
      assert p[0] == p[..2][0] == ALLOWED_PREFIXES[j][0];
    }
  }

  /** A lock that loads and can never be staged: `assets/qnn/a` and `assets/qnn/a/b`. */
  lemma NestedLockNeverStaged(sha: string, policy: Policy, s: State, manifest: string, c: Conditions,
                              digest: string -> string)
    requires LowerHex64(sha) && policy.variants == ["debug", "qa"]
    requires policy.lowerOrDigit('a') && policy.lowerOrDigit('b')
    ensures LockValid(NestedRows(sha), policy)
    ensures RunOnce(s, BuildTree(ArtifactsOf(NestedRows(sha), policy, 2), manifest, c, digest), c).1 != Done
  {
    hide ArtifactsOf, RunOnce, BuildTree, NestedRows, LowerHex64;
    NestedLockValid(sha, policy);
    var artifacts := ArtifactsOf(NestedRows(sha), policy, 2);
    assert IsPrefix(artifacts[0].target, artifacts[1].target);
    if RunOnce(s, BuildTree(artifacts, manifest, c, digest), c).1 == Done {
      DoneMeansNoneInside(s, artifacts, manifest, c, digest);
    }
  }
}
