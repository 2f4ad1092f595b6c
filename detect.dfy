/**
  The per-module verdict loop (`detect_changes`): after resolving the
  commits, each module is extracted from the base and from the head commit,
  and marked changed exactly when the head extraction succeeded and the two
  folder digests differ, a failed base extraction counting as the digest `""`.

  What the external steps do for the module at position `i` of the list, and
  which files the two extraction directories then hold, is `world(i)`.
 */
module Detection {
  import opened Common
  import opened CommitResolver
  import opened TreeExtractor
  import opened Fingerprint

  /** The files an extraction directory holds once `tar` has run. */
  datatype Tree = Tree(walk: seq<WalkStep>, files: map<string, FileState>)

  /** What the base and head extractions of one module meet. */
  datatype ModuleWorld = ModuleWorld(base: Oracle, head: Oracle, baseTree: Tree, headTree: Tree)

  /**
    A Python `dict` from module name to verdict: its keys in insertion order,
    and the value of each.
   */
  datatype Changes = Changes(keys: seq<string>, values: map<string, bool>)

  /** The keys are distinct and are exactly the names that have a value. */
  predicate Valid(c: Changes)
  {
    && (forall i, j | 0 <= i < j < |c.keys| :: c.keys[i] != c.keys[j])
    && (forall k | k in c.values :: k in c.keys)
    && (forall i | 0 <= i < |c.keys| :: c.keys[i] in c.values)
  }

  /**
    `changes[k] = v`: a new key goes to the end, an existing key keeps its
    place and takes the new value.
   */
  function Put(c: Changes, k: string, v: bool): (r: Changes)
    ensures Valid(c) ==> Valid(r)
    ensures k in r.values && r.values[k] == v
    ensures forall q | q != k && q in c.values :: q in r.values && r.values[q] == c.values[q]
    ensures forall q :: q in r.values <==> q in c.values || q == k
    ensures k in c.values ==> r.keys == c.keys
    ensures k !in c.values ==> r.keys == c.keys + [k]
  {
    if k in c.values then Changes(c.keys, c.values[k := v])
    else Changes(c.keys + [k], c.values[k := v])
  }

  /**
    The extraction directory of a successful extraction exists, because the
    extraction created it before anything else; so its digest is that of a
    present folder.
   */
  function Extracted(t: Tree): Folder
  {
    Present(t.walk, t.files)
  }

  /**
    The value the loop stores for one module: unchanged when the head
    extraction fails; changed when only the head extraction succeeds, since the
    head directory then exists and its digest is never `""`; otherwise whether
    the two digests differ.
   */
  function Verdict(commits: Commits, w: ModuleWorld, sha: seq<byte> -> HexDigest): (changed: bool)
    ensures !Extract(commits.head, w.head).ok ==> !changed
    ensures Extract(commits.head, w.head).ok && !Extract(commits.base, w.base).ok ==> changed
    ensures Extract(commits.head, w.head).ok && Extract(commits.base, w.base).ok ==>
              (changed <==> FolderDigest(Extracted(w.baseTree), sha) != FolderDigest(Extracted(w.headTree), sha))
  {
    var baseExtracted := Extract(commits.base, w.base).ok;
    var headExtracted := Extract(commits.head, w.head).ok;
    if !headExtracted then false
    else
      var baseHash := if baseExtracted then FolderDigest(Extracted(w.baseTree), sha) else "";
      var headHash := FolderDigest(Extracted(w.headTree), sha);
      baseHash != headHash
  }

  /** The dictionary after the loop has handled `modules`, the module at position `i` meeting `world(i)`. */
  function DetectSpec(modules: seq<string>, commits: Commits, world: nat -> ModuleWorld,
                      sha: seq<byte> -> HexDigest): (c: Changes)
    ensures Valid(c)
  {
    if modules == [] then Changes([], map[])
    else
      var n := |modules| - 1;
      Put(DetectSpec(modules[..n], commits, world, sha), modules[n], Verdict(commits, world(n), sha))
  }

  /** `detect_changes()` */
  method DetectChanges(modules: seq<string>, env: Env, revParse: string -> Captured,
                       world: nat -> ModuleWorld, sha: seq<byte> -> HexDigest)
    returns (changes: Changes)
    ensures changes == DetectSpec(modules, Resolve(env, revParse), world, sha)
  {
    var commits := Resolve(env, revParse);
    changes := Changes([], map[]);
    var i := 0;
    while i < |modules|
      invariant 0 <= i <= |modules|
      invariant changes == DetectSpec(modules[..i], commits, world, sha)
    {
      var name := modules[i];
      var w := world(i);
      var baseExtracted := Extract(commits.base, w.base).ok;
      var headExtracted := Extract(commits.head, w.head).ok;
      DetectSpecStep(modules, i, commits, world, sha);
      if !headExtracted {
        changes := Put(changes, name, false);
      } else {
        var baseHash := "";
        if baseExtracted {
          baseHash := FolderHash(Extracted(w.baseTree), sha);
        }
        var headHash := FolderHash(Extracted(w.headTree), sha);
        changes := Put(changes, name, baseHash != headHash);
      }
      i := i + 1;
    }
    assert modules[..i] == modules;
  }

  lemma DetectSpecStep(modules: seq<string>, i: nat, commits: Commits, world: nat -> ModuleWorld,
                       sha: seq<byte> -> HexDigest)
    requires i < |modules|
    ensures DetectSpec(modules[..i + 1], commits, world, sha)
            == Put(DetectSpec(modules[..i], commits, world, sha), modules[i], Verdict(commits, world(i), sha))
  {
    assert modules[..i + 1][..i] == modules[..i];
  }

  /** A module the head extraction fails for is unchanged, whatever happened to the base. */
  lemma HeadFailureIsUnchanged(commits: Commits, w: ModuleWorld, sha: seq<byte> -> HexDigest)
    requires !Extract(commits.head, w.head).ok
    ensures forall b: Oracle, t: Tree :: !Verdict(commits, w.(base := b, baseTree := t), sha)
  {
  }

  /** With no base commit every module present at head is changed. */
  lemma NoBaseMarksEverythingChanged(commits: Commits, w: ModuleWorld, sha: seq<byte> -> HexDigest)
    requires commits.base == None && Extract(commits.head, w.head).ok
    ensures Verdict(commits, w, sha)
  {
    NoCommitNoEffects(commits.base, w.base);
  }

  /**
    When both extractions succeed, the module is changed exactly when the two
    digests differ; the same hashed bytes always mean unchanged, even when
    the files are named differently.
   */
  lemma BothExtractedComparesDigests(commits: Commits, w: ModuleWorld, sha: seq<byte> -> HexDigest)
    requires Extract(commits.head, w.head).ok && Extract(commits.base, w.base).ok
    ensures Verdict(commits, w, sha) <==>
              sha(HashedStream(w.baseTree.walk, w.baseTree.files))
              != sha(HashedStream(w.headTree.walk, w.headTree.files))
    ensures (HashedStream(w.baseTree.walk, w.baseTree.files)
               == HashedStream(w.headTree.walk, w.headTree.files)) ==> !Verdict(commits, w, sha)
  {
  }

  /** The duplicate-free list of `s` in first-occurrence order. */
  function Dedup(s: seq<string>): seq<string>
  {
    if s == [] then []
    else
      var d := Dedup(s[..|s| - 1]);
      if s[|s| - 1] in d then d else d + [s[|s| - 1]]
  }

  /** The position of the first `x` in `s`. */
  function FirstIndex(s: seq<string>, x: string): (r: nat)
    requires x in s
    ensures r < |s| && s[r] == x
    ensures forall k | 0 <= k < r :: s[k] != x
  {
    if s[0] == x then 0 else 1 + FirstIndex(s[1..], x)
  }

  /** Keys appear in the order in which their first occurrences come in `s`. */
  predicate InFirstOccurrenceOrder(keys: seq<string>, s: seq<string>)
  {
    forall i, j | 0 <= i < j < |keys| && keys[i] in s && keys[j] in s ::
      FirstIndex(s, keys[i]) < FirstIndex(s, keys[j])
  }

  lemma FirstIndexExtend(s: seq<string>, x: string, y: string)
    requires y in s
    ensures y in s + [x] && FirstIndex(s + [x], y) == FirstIndex(s, y)
  {
    assert (s + [x])[FirstIndex(s, y)] == y;
  }

  /** `Dedup` keeps each name once, loses none, and keeps first-occurrence order. */
  lemma {:induction false} DedupIsFirstOccurrences(s: seq<string>)
    ensures var d := Dedup(s);
            && (forall i, j | 0 <= i < j < |d| :: d[i] != d[j])
            && (forall k :: k in d <==> k in s)
            && InFirstOccurrenceOrder(d, s)
    decreases |s|
  {
    if s != [] {
      var p, x := s[..|s| - 1], s[|s| - 1];
      DedupIsFirstOccurrences(p);
      assert s == p + [x];
      DedupOrderExtends(p, x);
    }
  }

  lemma DedupOrderExtends(p: seq<string>, x: string)
    requires forall k :: k in Dedup(p) <==> k in p
    requires InFirstOccurrenceOrder(Dedup(p), p)
    ensures InFirstOccurrenceOrder(Dedup(p + [x]), p + [x])
  {
    var s := p + [x];
    assert s[..|s| - 1] == p;
    var d, d' := Dedup(p), Dedup(s);
    forall i, j | 0 <= i < j < |d'| && d'[i] in s && d'[j] in s
      ensures FirstIndex(s, d'[i]) < FirstIndex(s, d'[j])
    {
      assert d'[i] == d[i];
      FirstIndexExtend(p, x, d'[i]);
      if j < |d| {
        FirstIndexExtend(p, x, d'[j]);
      } else {
        assert d'[j] == x && x !in p;
      }
    }
  }

  /** The dictionary's keys are the module names, deduplicated in first-occurrence order. */
  lemma {:induction false} KeysAreDedup(modules: seq<string>, commits: Commits,
                                        world: nat -> ModuleWorld, sha: seq<byte> -> HexDigest)
    ensures Valid(DetectSpec(modules, commits, world, sha))
    ensures DetectSpec(modules, commits, world, sha).keys == Dedup(modules)
    decreases |modules|
  {
    if modules != [] {
      var n := |modules| - 1;
      KeysAreDedup(modules[..n], commits, world, sha);
    }
  }

  /**
    The result has one key per distinct module name, in first-occurrence
    order, and no other key.
   */
  lemma KeysAreFirstOccurrences(modules: seq<string>, commits: Commits,
                                world: nat -> ModuleWorld, sha: seq<byte> -> HexDigest)
    ensures var c := DetectSpec(modules, commits, world, sha);
            && (forall i, j | 0 <= i < j < |c.keys| :: c.keys[i] != c.keys[j])
            && (forall k :: k in c.values <==> k in modules)
            && InFirstOccurrenceOrder(c.keys, modules)
  {
    KeysAreDedup(modules, commits, world, sha);
    DedupIsFirstOccurrences(modules);
  }

  /** The dictionary after `changes[modules[j]] = val(j)` for each position `j` in turn. */
  function Assigned(modules: seq<string>, val: nat -> bool): (c: Changes)
    ensures Valid(c)
  {
    if modules == [] then Changes([], map[])
    else
      var n := |modules| - 1;
      Put(Assigned(modules[..n], val), modules[n], val(n))
  }

  /** The detection loop assigns each module its verdict, position by position. */
  lemma {:induction false} DetectSpecAssigns(modules: seq<string>, commits: Commits,
                                             world: nat -> ModuleWorld, sha: seq<byte> -> HexDigest)
    ensures DetectSpec(modules, commits, world, sha) == Assigned(modules, (j: nat) => Verdict(commits, world(j), sha))
    decreases |modules|
  {
    if modules != [] {
      DetectSpecAssigns(modules[..|modules| - 1], commits, world, sha);
    }
  }

  /** Of several assignments to one key, the last one stays. */
  lemma {:induction false} LastAssignmentWins(modules: seq<string>, val: nat -> bool, i: nat)
    requires i < |modules|
    requires forall j | i < j < |modules| :: modules[j] != modules[i]
    ensures var c := Assigned(modules, val);
            modules[i] in c.values && c.values[modules[i]] == val(i)
    decreases |modules|
  {
    var n := |modules| - 1;
    var p := modules[..n];
    if i < n {
      assert p[i] == modules[i];
      LastAssignmentWins(p, val, i);
    }
  }

  /**
    A name listed more than once keeps the verdict of its last occurrence:
    each later assignment overwrites the earlier one.
   */
  lemma LastOccurrenceWins(modules: seq<string>, commits: Commits,
                           world: nat -> ModuleWorld, sha: seq<byte> -> HexDigest, i: nat)
    requires i < |modules|
    requires forall j | i < j < |modules| :: modules[j] != modules[i]
    ensures var c := DetectSpec(modules, commits, world, sha);
            modules[i] in c.values && c.values[modules[i]] == Verdict(commits, world(i), sha)
  {
    DetectSpecAssigns(modules, commits, world, sha);
    LastAssignmentWins(modules, (j: nat) => Verdict(commits, world(j), sha), i);
  }
}
