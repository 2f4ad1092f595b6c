/**
  The extraction outcome (`_extract_module_tree`): a module's files are taken
  out of a commit with `git ls-tree`, then `git archive` piped into `tar -x`.
  Each external step is an input saying what it does when it is reached: it
  raises, or it ends with an exit code. The model gives whether extraction
  reports success and which steps were reached, in order.
 */
module TreeExtractor {
  import opened Common

  /** What one external step does: it raises an exception, or it exits with a code. */
  datatype Run = Raised | Exited(code: int)

  /** What each step of one extraction would do if it were reached. */
  datatype Oracle = Oracle(
    makedirs: Run,   // `os.makedirs(extract_dir, exist_ok=True)`; its code is not used
    lsTree: Run,     // `subprocess.run(['git', 'ls-tree', commit, module])`
    archive: Run,    // `Popen(['git', 'archive', commit, module])`; its code is never read
    tar: Run)        // `Popen(['tar', '-x', '-C', dir])` and `communicate()`

  /** An external step that the extraction reached. */
  datatype Step = MakeDirs | LsTree | Archive | Tar

  datatype Extraction = Extraction(ok: bool, steps: seq<Step>)

  /** `not commit_sha`: the commit is absent or the empty string. */
  predicate NoCommit(commit: Option<string>)
  {
    commit.None? || commit.value == []
  }

  /** Whether the extraction directory exists afterwards: the first step was reached and did not raise. */
  predicate DirCreated(commit: Option<string>, o: Oracle)
  {
    !NoCommit(commit) && !o.makedirs.Raised?
  }

  /**
    `_extract_module_tree(commit, module, dir)`: every exception is caught and
    reported as failure, a non-zero `ls-tree` code stops before the archive
    is made, and only `tar`'s exit code decides once both processes run.
   */
  function Extract(commit: Option<string>, o: Oracle): (e: Extraction)
    ensures e.ok <==> !NoCommit(commit) && !o.makedirs.Raised? && o.lsTree == Exited(0)
                      && !o.archive.Raised? && o.tar == Exited(0)
    ensures NoCommit(commit) <==> e.steps == []
    ensures e.ok ==> e.steps == [MakeDirs, LsTree, Archive, Tar]
  {
    if NoCommit(commit) then Extraction(false, [])
    else if o.makedirs.Raised? then Extraction(false, [MakeDirs])
    else if o.lsTree.Raised? then Extraction(false, [MakeDirs, LsTree])
    else if o.lsTree.code != 0 then Extraction(false, [MakeDirs, LsTree])
    else if o.archive.Raised? then Extraction(false, [MakeDirs, LsTree, Archive])
    else if o.tar.Raised? then Extraction(false, [MakeDirs, LsTree, Archive, Tar])
    else Extraction(o.tar.code == 0, [MakeDirs, LsTree, Archive, Tar])
  }

  /** Without a commit nothing is run and nothing is created, whatever the steps would do. */
  lemma NoCommitNoEffects(commit: Option<string>, o: Oracle)
    requires NoCommit(commit)
    ensures Extract(commit, o) == Extraction(false, [])
    ensures !DirCreated(commit, o)
  {
  }

  /** The exit code of `git archive` never changes the outcome. */
  lemma ArchiveCodeIgnored(commit: Option<string>, o: Oracle, c: int)
    requires o.archive.Exited?
    ensures Extract(commit, o.(archive := Exited(c))) == Extract(commit, o)
  {
  }

  /** A failed `ls-tree` stops before the archive and `tar` are started. */
  lemma LsTreeFailureStopsEarly(commit: Option<string>, o: Oracle)
    requires !NoCommit(commit) && !o.makedirs.Raised? && o.lsTree != Exited(0)
    ensures Extract(commit, o) == Extraction(false, [MakeDirs, LsTree])
  {
  }

  /** A successful extraction leaves its directory in place. */
  lemma SuccessCreatedDirectory(commit: Option<string>, o: Oracle)
    requires Extract(commit, o).ok
    ensures DirCreated(commit, o)
  {
  }
}
