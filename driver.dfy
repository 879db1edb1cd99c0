/**
 * The trial-and-revert loop `process_sed_commands`: for each line of `sed.sh`
 * it finds the files the command names, backs them up by file name, runs the
 * command, re-measures with `cargo check`, and either keeps the change (the
 * running baseline becomes the new measurement) or copies the backups back.
 *
 * The working tree is a map from path to entry. Running a shell command and
 * running `cargo check` are oracles given as functions: a command's exit
 * status and resulting tree depend on the command and the tree it runs on,
 * and `cargo check`'s standard output depends on the tree.
 */
module Driver {
  import opened Text
  import opened Diagnostics
  import opened Decision

  datatype Option<T> = None | Some(value: T)

  type Bytes = seq<bv8>
  type Path = string

  /** What a path names: a regular file with its bytes, or a directory. */
  datatype Entry = File(data: Bytes) | Dir

  /** The working tree; `os.path.exists(p)` is `p in tree`. */
  type Tree = map<Path, Entry>

  /** The temporary backup directory, one file per base name. */
  type Store = map<string, Bytes>

  /** What running a command gives back: its exit status and the tree it leaves. */
  datatype Applied = Applied(exitCode: int, tree: Tree)

  /** The shell, as an oracle: `run_command(command)` on a given tree. */
  type Runner = (string, Tree) -> Applied

  /** `cargo check`, as an oracle: its standard output on a given tree. */
  type Checker = Tree -> string

  // ---------------------------------------------------------------------------
  // Target files

  /** The parts that name an existing path, in order, duplicates kept. */
  function KeepExisting(parts: seq<string>, tree: Tree): (targets: seq<Path>)
    ensures forall i :: 0 <= i < |targets| ==> targets[i] in tree
  {
    if parts == [] then []
    else
      var n := |parts| - 1;
      KeepExisting(parts[..n], tree) + (if parts[n] in tree then [parts[n]] else [])
  }

  /** The target files of a command: its whitespace-separated words that exist. */
  function Targets(command: string, tree: Tree): seq<Path> {
    KeepExisting(SplitWhitespace(command), tree)
  }

  /** The `split()` / `os.path.exists` / `append` loop that collects `target_files`. */
  method ExtractTargets(command: string, tree: Tree) returns (targets: seq<Path>)
    ensures targets == Targets(command, tree)
  {
    var parts := SplitWhitespace(command);
    targets := [];
    var i := 0;
    while i < |parts|
      invariant 0 <= i <= |parts|
      invariant targets == KeepExisting(parts[..i], tree)
    {
      assert parts[..i + 1][..i] == parts[..i];
      if parts[i] in tree {
        targets := targets + [parts[i]];
      }
      i := i + 1;
    }
    assert parts[..i] == parts;
  }

  /** Each existing part is a target as often as it occurs; no other word is a target. */
  lemma {:induction false} KeepExistingCount(parts: seq<string>, tree: Tree, x: string)
    ensures multiset(KeepExisting(parts, tree))[x] == if x in tree then multiset(parts)[x] else 0
  {
    if parts != [] {
      var n := |parts| - 1;
      KeepExistingCount(parts[..n], tree, x);
      assert parts == parts[..n] + [parts[n]];
    }
  }

  /** `a` is `b` with some elements left out, the rest kept in order. */
  ghost predicate IsSubsequence<T>(a: seq<T>, b: seq<T>)
    decreases |b|
  {
    if a == [] then true
    else if b == [] then false
    else
      (a[|a| - 1] == b[|b| - 1] && IsSubsequence(a[..|a| - 1], b[..|b| - 1]))
      || IsSubsequence(a, b[..|b| - 1])
  }

  /** The targets keep the order of the command's words. */
  lemma {:induction false} KeepExistingInOrder(parts: seq<string>, tree: Tree)
    ensures IsSubsequence(KeepExisting(parts, tree), parts)
  {
    if parts != [] {
      var n := |parts| - 1;
      var init := KeepExisting(parts[..n], tree);
      KeepExistingInOrder(parts[..n], tree);
      if parts[n] in tree {
        var r := init + [parts[n]];
        assert r[..|r| - 1] == init;
      } else {
        assert KeepExisting(parts, tree) == init;
        SubsequenceOfLonger(init, parts[..n], parts[n]);
      }
    }
  }

  lemma {:induction false} SubsequenceOfLonger<T>(a: seq<T>, b: seq<T>, x: T)
    requires IsSubsequence(a, b)
    ensures IsSubsequence(a, b + [x])
  {
    if a != [] {
      assert (b + [x])[..|b|] == b;
    }
  }

  /** Some word of `parts` names an existing path. */
  ghost predicate SomeExists(parts: seq<string>, tree: Tree) {
    exists i :: 0 <= i < |parts| && parts[i] in tree
  }

  /** A command has targets exactly when one of its words exists. */
  lemma HasTargetsIff(command: string, tree: Tree)
    ensures Targets(command, tree) != [] <==> SomeExists(SplitWhitespace(command), tree)
  {
    KeepExistingNonEmpty(SplitWhitespace(command), tree);
  }

  lemma {:induction false} KeepExistingNonEmpty(parts: seq<string>, tree: Tree)
    ensures KeepExisting(parts, tree) != [] <==> SomeExists(parts, tree)
  {
    if parts != [] {
      var n := |parts| - 1;
      var init := parts[..n];
      KeepExistingNonEmpty(init, tree);
      if parts[n] in tree {
        assert KeepExisting(parts, tree) != [];
        assert SomeExists(parts, tree) by { assert parts[n] in tree; }
      } else {
        assert KeepExisting(parts, tree) == KeepExisting(init, tree);
        forall i | 0 <= i < n ensures init[i] == parts[i] { }
      }
    }
  }

  // ---------------------------------------------------------------------------
  // Backups

  /** The per-command `backups` dict after the copy loop, or the failure it raised. */
  datatype Backup =
    | Saved(store: Store, backups: map<Path, string>)
    | Failed(store: Store)   // `shutil.copy` raised: a target is not a regular file

  predicate IsFileIn(tree: Tree, p: Path) {
    p in tree && tree[p].File?
  }

  /**
   * The backup loop: each target in turn is copied to the backup directory
   * under its base name and recorded in `backups`; copying stops at the first
   * target that is not a regular file, keeping the copies already made.
   */
  function BackUp(targets: seq<Path>, tree: Tree, store: Store): (r: Backup)
    ensures r.Saved? ==> forall t :: t in r.backups ==> r.backups[t] in r.store
    decreases |targets|
  {
    if targets == [] then Saved(store, map[])
    else
      var n := |targets| - 1;
      var t := targets[n];
      match BackUp(targets[..n], tree, store)
      case Failed(st) => Failed(st)
      case Saved(st, b) =>
        if IsFileIn(tree, t) then Saved(st[Basename(t) := tree[t].data], b[t := Basename(t)])
        else Failed(st)
  }

  /**
   * The loop succeeds exactly when every target is a regular file; then it
   * records each target, and only the targets, under its base name.
   */
  lemma {:induction false} BackUpSpec(targets: seq<Path>, tree: Tree, store: Store)
    ensures var r := BackUp(targets, tree, store);
      && (r.Saved? <==> forall i :: 0 <= i < |targets| ==> IsFileIn(tree, targets[i]))
      && (r.Saved? ==> forall t :: t in r.backups <==> t in targets)
      && (r.Saved? ==> forall t :: t in r.backups ==> r.backups[t] == Basename(t))
    decreases |targets|
  {
    if targets != [] {
      var n := |targets| - 1;
      var init := targets[..n];
      BackUpSpec(init, tree, store);
      assert targets == init + [targets[n]];
      forall i | 0 <= i < n ensures targets[i] == init[i] { }
    }
  }

  /** A failure part-way stays the outcome of the whole loop. */
  lemma {:induction false} BackUpFailureSticks(targets: seq<Path>, tree: Tree, store: Store, k: nat)
    requires k <= |targets| && BackUp(targets[..k], tree, store).Failed?
    ensures BackUp(targets, tree, store) == BackUp(targets[..k], tree, store)
    decreases |targets|
  {
    if k < |targets| {
      var n := |targets| - 1;
      assert targets[..n][..k] == targets[..k];
      BackUpFailureSticks(targets[..n], tree, store, k);
    } else {
      assert targets[..k] == targets;
    }
  }

  /** The `for target_file in target_files` loop that fills `backups`. */
  method BackUpTargets(targets: seq<Path>, tree: Tree, store: Store)
    returns (saved: Store, backups: map<Path, string>, ok: bool)
    ensures ok ==> BackUp(targets, tree, store) == Saved(saved, backups)
    ensures !ok ==> BackUp(targets, tree, store) == Failed(saved)
  {
    saved, backups, ok := store, map[], true;
    var i := 0;
    while i < |targets| && ok
      invariant 0 <= i <= |targets|
      invariant ok ==> BackUp(targets[..i], tree, store) == Saved(saved, backups)
      invariant !ok ==> BackUp(targets[..i], tree, store) == Failed(saved)
    {
      var t := targets[i];
      assert targets[..i + 1][..i] == targets[..i];
      if IsFileIn(tree, t) {
        var name := Basename(t);
        saved := saved[name := tree[t].data];
        backups := backups[t := name];
      } else {
        ok := false;
      }
      i := i + 1;
    }
    if ok {
      assert targets[..i] == targets;
    } else {
      BackUpFailureSticks(targets, tree, store, i);
    }
  }

  /** No two different targets share a base name. */
  predicate DistinctBasenames(targets: seq<Path>) {
    forall i, j ::
      (0 <= i < |targets| && 0 <= j < |targets| && Basename(targets[i]) == Basename(targets[j]))
      ==> targets[i] == targets[j]
  }

  /** The backup of `t` in `st` holds `t`'s bytes in `tree`. */
  predicate SavedIn(st: Store, tree: Tree, t: Path) {
    Basename(t) in st && IsFileIn(tree, t) && st[Basename(t)] == tree[t].data
  }

  /** With distinct base names, every target's backup holds that target's own bytes. */
  lemma {:induction false} BackUpFaithful(targets: seq<Path>, tree: Tree, store: Store)
    requires DistinctBasenames(targets)
    requires BackUp(targets, tree, store).Saved?
    ensures forall t :: t in targets ==> SavedIn(BackUp(targets, tree, store).store, tree, t)
    decreases |targets|
  {
    if targets != [] {
      var n := |targets| - 1;
      var init := targets[..n];
      var last := targets[n];
      forall i | 0 <= i < n ensures init[i] == targets[i] { }
      assert DistinctBasenames(init);
      var r0 := BackUp(init, tree, store);
      assert r0.Saved?;
      BackUpFaithful(init, tree, store);
      var st := r0.store[Basename(last) := tree[last].data];
      assert BackUp(targets, tree, store).store == st;
      forall i | 0 <= i < |targets| ensures SavedIn(st, tree, targets[i]) {
        if i < n {
          assert targets[i] in init;
          assert SavedIn(r0.store, tree, targets[i]);
          assert Basename(targets[i]) == Basename(last) ==> targets[i] == last;
        }
      }
    }
  }

  /**
   * Two different files with one base name: the later backup overwrites the
   * earlier one, so the earlier target's saved bytes are the later target's.
   */
  lemma BasenameCollision(p: Path, q: Path, tree: Tree, store: Store)
    requires p != q && Basename(p) == Basename(q)
    requires IsFileIn(tree, p) && IsFileIn(tree, q)
    ensures var r := BackUp([p, q], tree, store);
      r.Saved? && Basename(p) in r.store && r.store[Basename(p)] == tree[q].data
  {
    BackUpSnoc([], p, tree, store);
    BackUpSnoc([p], q, tree, store);
    assert [p] + [q] == [p, q];
  }

  /** One more target: the loop body run once after the earlier targets. */
  lemma BackUpSnoc(init: seq<Path>, t: Path, tree: Tree, store: Store)
    ensures BackUp(init + [t], tree, store) ==
      match BackUp(init, tree, store)
      case Failed(st) => Failed(st)
      case Saved(st, b) =>
        if IsFileIn(tree, t) then Saved(st[Basename(t) := tree[t].data], b[t := Basename(t)])
        else Failed(st)
  {
    var ts := init + [t];
    assert ts[..|init|] == init;
  }

  // ---------------------------------------------------------------------------
  // Restoring

  /** The tree after copying every backup in `backups` over its target. */
  function Restore(tree: Tree, backups: map<Path, string>, store: Store): Tree
    requires forall t :: t in backups ==> backups[t] in store
  {
    tree + map t | t in backups :: File(store[backups[t]])
  }

  /** The `for target_file, backup_file in backups.items()` copy-back loop, in any order. */
  method RestoreBackups(tree: Tree, backups: map<Path, string>, store: Store) returns (restored: Tree)
    requires forall t :: t in backups ==> backups[t] in store
    ensures restored == Restore(tree, backups, store)
  {
    restored := tree;
    var pending := backups.Keys;
    while pending != {}
      invariant pending <= backups.Keys
      invariant restored == tree + map t | t in backups.Keys - pending :: File(store[backups[t]])
      decreases pending
    {
      var t :| t in pending;
      restored := restored[t := File(store[backups[t]])];
      pending := pending - {t};
    }
    assert backups.Keys - pending == backups.Keys;
  }

  // ---------------------------------------------------------------------------
  // One command

  /** The state the loop carries from one command to the next. */
  datatype State = State(tree: Tree, store: Store, baseline: Counts)

  /** What happened to one line of `sed.sh`. */
  datatype Report =
    | Blank                                // empty after `strip()`
    | NoTargets                            // no word of the command exists
    | BackupFailed                         // the `except Exception` path
    | ApplyFailed                          // non-zero exit status
    | Accepted(now: Counts)                // kept; `now` is the new baseline
    | Reverted(now: Counts, verdict: Verdict)  // backups copied back

  datatype StepResult = StepResult(state: State, report: Report)

  /** One iteration of the `for sed_command in sed_commands` loop. */
  function Step(s: State, line: string, run: Runner, check: Checker): StepResult {
    var command := Strip(line);
    if command == [] then StepResult(s, Blank)
    else
      var targets := Targets(command, s.tree);
      if targets == [] then StepResult(s, NoTargets)
      else
        match BackUp(targets, s.tree, s.store)
        case Failed(store) => StepResult(s.(store := store), BackupFailed)
        case Saved(store, backups) =>
          var applied := run(command, s.tree);
          if applied.exitCode != 0 then StepResult(State(applied.tree, store, s.baseline), ApplyFailed)
          else
            var now := Parse(check(applied.tree));
            var verdict := Decide(s.baseline, now);
            if verdict == Accept then StepResult(State(applied.tree, store, now), Accepted(now))
            else StepResult(State(Restore(applied.tree, backups, store), store, s.baseline), Reverted(now, verdict))
  }

  /** The loop body of `process_sed_commands`, on the loop's variables. */
  method ProcessCommand(line: string, tree: Tree, store: Store, baseline: Counts, run: Runner, check: Checker)
    returns (tree': Tree, store': Store, baseline': Counts)
    ensures State(tree', store', baseline') == Step(State(tree, store, baseline), line, run, check).state
  {
    tree', store', baseline' := tree, store, baseline;
    var command := Strip(line);
    if command == [] {
      return;
    }
    var targets := ExtractTargets(command, tree);
    if targets == [] {
      return;
    }
    var saved, backups, ok := BackUpTargets(targets, tree, store);
    store' := saved;
    if !ok {
      return;
    }
    var applied := run(command, tree);
    tree' := applied.tree;
    if applied.exitCode != 0 {
      return;
    }
    var newErrors, newWarnings := ParseCargoOutput(check(applied.tree));
    var now := Counts(newErrors, newWarnings);
    if Decide(baseline, now) == Accept {
      baseline' := now;
    } else {
      tree' := RestoreBackups(applied.tree, backups, saved);
    }
  }

  /** A line is skipped, leaving the state alone, exactly when it is blank or names no existing path. */
  lemma StepSkips(s: State, line: string, run: Runner, check: Checker)
    ensures var r := Step(s, line, run, check);
      && (r.report == Blank <==> Strip(line) == [])
      && (r.report == NoTargets <==> Strip(line) != [] && Targets(Strip(line), s.tree) == [])
      && (r.report in {Blank, NoTargets} ==> r.state == s)
  {
  }

  /**
   * The backup loop fails exactly when some target is not a regular file;
   * then the tree and the baseline are untouched and the command never runs.
   */
  lemma StepBackupFailed(s: State, line: string, run: Runner, check: Checker)
    ensures var targets := Targets(Strip(line), s.tree);
      var r := Step(s, line, run, check);
      && (r.report == BackupFailed <==> exists i :: 0 <= i < |targets| && !IsFileIn(s.tree, targets[i]))
      && (r.report == BackupFailed ==> r.state.tree == s.tree && r.state.baseline == s.baseline)
  {
    if Strip(line) == [] {
      assert SplitWhitespace([]) == [];
    }
    BackUpSpec(Targets(Strip(line), s.tree), s.tree, s.store);
  }

  /** A command that exits non-zero keeps whatever it did to the tree, and the baseline. */
  lemma StepApplyFailed(s: State, line: string, run: Runner, check: Checker)
    ensures var r := Step(s, line, run, check);
      r.report == ApplyFailed ==>
        && run(Strip(line), s.tree).exitCode != 0
        && r.state.tree == run(Strip(line), s.tree).tree
        && r.state.baseline == s.baseline
  {
  }

  /**
   * Once the backups are made, the exit status and the decision alone fix the
   * outcome: a non-zero exit keeps the command's tree and the baseline without
   * measuring; a zero exit measures the command's tree, then keeps it with the
   * new baseline on accept, or puts the backups back on either revert.
   */
  lemma StepClassify(s: State, line: string, run: Runner, check: Checker)
    requires Strip(line) != [] && Targets(Strip(line), s.tree) != []
    requires BackUp(Targets(Strip(line), s.tree), s.tree, s.store).Saved?
    ensures var r := Step(s, line, run, check);
      var b := BackUp(Targets(Strip(line), s.tree), s.tree, s.store);
      var applied := run(Strip(line), s.tree);
      var now := Parse(check(applied.tree));
      && (applied.exitCode != 0 ==>
            r.report == ApplyFailed && r.state == State(applied.tree, b.store, s.baseline))
      && (applied.exitCode == 0 && Decide(s.baseline, now) == Accept ==>
            r.report == Accepted(now) && r.state == State(applied.tree, b.store, now))
      && (applied.exitCode == 0 && Decide(s.baseline, now) != Accept ==>
            && r.report == Reverted(now, Decide(s.baseline, now))
            && r.state == State(Restore(applied.tree, b.backups, b.store), b.store, s.baseline))
  {
  }

  /**
   * The baseline changes exactly when the command is accepted, and then it is
   * the new measurement, which the decision accepted against the old baseline.
   * It never goes up.
   */
  lemma StepBaseline(s: State, line: string, run: Runner, check: Checker)
    ensures var r := Step(s, line, run, check);
      && (r.report.Accepted? <==> r.state.baseline != s.baseline)
      && (r.report.Accepted? ==>
            && r.state.baseline == r.report.now
            && r.report.now == Parse(check(run(Strip(line), s.tree).tree))
            && Decide(s.baseline, r.report.now) == Accept
            && r.state.tree == run(Strip(line), s.tree).tree)
      && AtMost(r.state.baseline, s.baseline)
  {
    var r := Step(s, line, run, check);
    if r.report.Accepted? {
      AcceptLowers(s.baseline, r.report.now);
    }
  }

  /** With distinct base names, the entries the backups restore are the targets' entries. */
  lemma BackupsHoldTargets(targets: seq<Path>, tree: Tree, store: Store)
    requires DistinctBasenames(targets)
    requires BackUp(targets, tree, store).Saved?
    ensures forall t :: t in targets ==> t in tree
    ensures var r := BackUp(targets, tree, store);
      (map t | t in r.backups :: File(r.store[r.backups[t]])) == (map t | t in targets :: tree[t])
  {
    var r := BackUp(targets, tree, store);
    BackUpSpec(targets, tree, store);
    BackUpFaithful(targets, tree, store);
    forall t | t in targets ensures t in tree && File(r.store[r.backups[t]]) == tree[t] {
      assert SavedIn(r.store, tree, t);
    }
  }

  /**
   * So copying the backups back over any tree puts every target's entry from
   * before the backup back in place, and touches nothing else.
   */
  lemma RestoreFaithful(targets: seq<Path>, tree: Tree, store: Store, after: Tree)
    requires DistinctBasenames(targets)
    requires BackUp(targets, tree, store).Saved?
    ensures forall t :: t in targets ==> t in tree
    ensures var r := BackUp(targets, tree, store);
      Restore(after, r.backups, r.store) == after + (map t | t in targets :: tree[t])
  {
    BackupsHoldTargets(targets, tree, store);
  }

  /**
   * A reverted command leaves the tree the command produced, except that every
   * target holds its bytes from before the command, provided no two targets
   * share a base name.
   */
  lemma StepRevertRestores(s: State, line: string, run: Runner, check: Checker)
    requires Step(s, line, run, check).report.Reverted?
    requires DistinctBasenames(Targets(Strip(line), s.tree))
    ensures var targets := Targets(Strip(line), s.tree);
      && Step(s, line, run, check).state.tree ==
         run(Strip(line), s.tree).tree + (map t | t in targets :: s.tree[t])
      && Step(s, line, run, check).state.baseline == s.baseline
  {
    var command := Strip(line);
    var targets := Targets(command, s.tree);
    StepReverted(s, line, run, check);
    RestoreFaithful(targets, s.tree, s.store, run(command, s.tree).tree);
  }

  /** A revert happens only after saved backups and a zero exit, and its state is the restore. */
  lemma StepReverted(s: State, line: string, run: Runner, check: Checker)
    requires Step(s, line, run, check).report.Reverted?
    ensures var targets := Targets(Strip(line), s.tree);
      var b := BackUp(targets, s.tree, s.store);
      && b.Saved?
      && run(Strip(line), s.tree).exitCode == 0
      && Step(s, line, run, check).state ==
         State(Restore(run(Strip(line), s.tree).tree, b.backups, b.store), b.store, s.baseline)
  {
  }

  /** Writing back the old entries of the only paths a change touched gives back the old tree. */
  lemma OverwriteUndoes(before: Tree, after: Tree, touched: seq<Path>)
    requires forall t :: t in touched ==> t in before
    requires forall p :: p !in touched ==>
      (p in after <==> p in before) && (p in after ==> after[p] == before[p])
    ensures after + (map t | t in touched :: before[t]) == before
  {
  }

  /**
   * So when a reverted command changed nothing but its targets, the tree is
   * exactly as it was before the command.
   */
  lemma RevertUndoes(s: State, line: string, run: Runner, check: Checker)
    requires Step(s, line, run, check).report.Reverted?
    requires DistinctBasenames(Targets(Strip(line), s.tree))
    requires var after := run(Strip(line), s.tree).tree;
      forall p :: p !in Targets(Strip(line), s.tree) ==>
        (p in after <==> p in s.tree) && (p in after ==> after[p] == s.tree[p])
    ensures Step(s, line, run, check).state.tree == s.tree
    ensures Step(s, line, run, check).state.baseline == s.baseline
  {
    StepRevertRestores(s, line, run, check);
    OverwriteUndoes(s.tree, run(Strip(line), s.tree).tree, Targets(Strip(line), s.tree));
  }

  // ---------------------------------------------------------------------------
  // The whole loop

  /** The state after processing `lines` in order from `s`. */
  function Run(s: State, lines: seq<string>, run: Runner, check: Checker): State {
    if lines == [] then s
    else
      var n := |lines| - 1;
      Step(Run(s, lines[..n], run, check), lines[n], run, check).state
  }

  /** Running one more line of the file is one more step. */
  lemma RunPrefix(s: State, lines: seq<string>, i: nat, run: Runner, check: Checker)
    requires i < |lines|
    ensures Run(s, lines[..i + 1], run, check) == Step(Run(s, lines[..i], run, check), lines[i], run, check).state
  {
    assert lines[..i + 1][..i] == lines[..i];
  }

  /** Processing `a` then `b` is processing `a + b`. */
  lemma {:induction false} RunAppend(s: State, a: seq<string>, b: seq<string>, run: Runner, check: Checker)
    ensures Run(s, a + b, run, check) == Run(Run(s, a, run, check), b, run, check)
    decreases |b|
  {
    if b == [] {
      assert a + b == a;
    } else {
      var n := |b| - 1;
      assert (a + b)[..|a| + n] == a + b[..n];
      RunAppend(s, a, b[..n], run, check);
    }
  }

  /** Over any sequence of commands the running baseline never goes up. */
  lemma {:induction false} RunBaselineMonotone(s: State, lines: seq<string>, run: Runner, check: Checker)
    ensures AtMost(Run(s, lines, run, check).baseline, s.baseline)
  {
    if lines != [] {
      var n := |lines| - 1;
      var mid := Run(s, lines[..n], run, check);
      RunBaselineMonotone(s, lines[..n], run, check);
      StepBaseline(mid, lines[n], run, check);
      AtMostTransitive(Run(s, lines, run, check).baseline, mid.baseline, s.baseline);
    }
  }

  /** Blank lines change nothing. */
  lemma {:induction false} RunBlankLines(s: State, lines: seq<string>, run: Runner, check: Checker)
    requires forall i :: 0 <= i < |lines| ==> Strip(lines[i]) == []
    ensures Run(s, lines, run, check) == s
  {
    if lines != [] {
      var n := |lines| - 1;
      RunBlankLines(s, lines[..n], run, check);
    }
  }

  /** Before the loop: the initial `cargo check` and an empty backup directory. */
  function Initial(tree: Tree, check: Checker): State {
    State(tree, map[], Parse(check(tree)))
  }

  /**
   * `process_sed_commands`. `sedFile` is `None` when `sed.sh` does not exist,
   * otherwise the lines `readlines()` returned. It returns the final tree and
   * the final running baseline (`None` when nothing ran).
   */
  method ProcessSedCommands(sedFile: Option<seq<string>>, tree0: Tree, run: Runner, check: Checker)
    returns (tree: Tree, baseline: Option<Counts>)
    ensures sedFile.None? ==> tree == tree0 && baseline == None
    ensures sedFile.Some? ==>
      var s := Run(Initial(tree0, check), sedFile.value, run, check);
      tree == s.tree && baseline == Some(s.baseline)
    ensures sedFile.Some? ==> baseline.Some? && AtMost(baseline.value, Parse(check(tree0)))
  {
    if sedFile.None? {
      return tree0, None;
    }
    var lines := sedFile.value;
    var initialErrors, initialWarnings := ParseCargoOutput(check(tree0));
    var current := Counts(initialErrors, initialWarnings);
    var store: Store := map[];
    tree := tree0;
    var i := 0;
    while i < |lines|
      invariant 0 <= i <= |lines|
      invariant State(tree, store, current) == Run(Initial(tree0, check), lines[..i], run, check)
    {
      RunPrefix(Initial(tree0, check), lines, i, run, check);
      tree, store, current := ProcessCommand(lines[i], tree, store, current, run, check);
      i := i + 1;
    }
    assert lines[..i] == lines;
    RunBaselineMonotone(Initial(tree0, check), lines, run, check);
    baseline := Some(current);
  }
}
