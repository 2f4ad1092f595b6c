/**
  The folder fingerprint: `_folder_hash` lists every file under a folder with
  `os.walk`, sorts the full paths, and streams the bytes of each file, in that
  order, in reads of 8192 bytes, into one SHA-256 accumulator. Only contents are
  hashed, never paths. A folder that does not exist gives the empty string.

  SHA-256 itself is a parameter `sha` of the operations: a function from the
  accumulated byte stream to its 64-digit lower-case hex digest, about which
  nothing else (no collision resistance) is assumed.
 */
module Fingerprint {
  import opened Common
  import PathOrder

  /** The size of one `f.read(8192)`. */
  const ChunkSize: nat := 8192

  predicate IsHexDigit(c: char)
  {
    ('0' <= c <= '9') || ('a' <= c <= 'f')
  }

  /** What `hexdigest()` of a SHA-256 object returns. */
  type HexDigest = s: string | |s| == 64 && forall i | 0 <= i < |s| :: IsHexDigit(s[i])
    witness seq(64, _ => '0')

  /** One directory that `os.walk` visits: its path and the names of the files in it. */
  datatype WalkStep = WalkStep(root: string, filenames: seq<string>)

  /**
    What opening and reading one listed path does: it reads to the end, or
    `open` raises, or the read after `goodReads` successful ones raises.
   */
  datatype FileState =
    | Readable(data: seq<byte>)
    | OpenFails
    | ReadFails(data: seq<byte>, goodReads: nat)

  /**
    A folder as `_folder_hash` finds it: absent (`os.path.exists` is false), or
    present with the sequence of directories `os.walk` yields and what reading
    each path gives. A listed path missing from `files` fails to open.
   */
  datatype Folder =
    | Missing
    | Present(walk: seq<WalkStep>, files: map<string, FileState>)

  /** `os.path.join(root, name)` on POSIX. */
  function Join(root: string, name: string): string
  {
    if |name| > 0 && name[0] == '/' then name
    else if root == [] || root[|root| - 1] == '/' then root + name
    else root + "/" + name
  }

  /**
    A joined path ends with the file name; it starts with the directory
    unless the name is absolute, in which case it is the name.
   */
  lemma JoinParts(root: string, name: string)
    ensures var p := Join(root, name);
            && |name| <= |p| && p[|p| - |name|..] == name
            && (|name| > 0 && name[0] == '/' ==> p == name)
            && (!(|name| > 0 && name[0] == '/') ==> |root| <= |p| && p[..|root|] == root)
  {
  }

  /** The full paths of the files of one walk step, in the order they are listed. */
  function StepPaths(root: string, names: seq<string>): seq<string>
  {
    if names == [] then []
    else StepPaths(root, names[..|names| - 1]) + [Join(root, names[|names| - 1])]
  }

  /** Every full path the nested walk loop appends to `files`, in order. */
  function WalkPaths(walk: seq<WalkStep>): seq<string>
  {
    if walk == [] then []
    else
      var last := walk[|walk| - 1];
      WalkPaths(walk[..|walk| - 1]) + StepPaths(last.root, last.filenames)
  }

  function FileAt(files: map<string, FileState>, path: string): FileState
  {
    if path in files then files[path] else OpenFails
  }

  /** The bytes that reading a file feeds to the hasher before it stops or raises. */
  function Delivered(st: FileState): (d: seq<byte>)
    ensures st.OpenFails? ==> d == []
    ensures st.Readable? ==> d == st.data
    ensures st.ReadFails? ==> d == st.data[..Min(st.goodReads * ChunkSize, |st.data|)]
  {
    match st
    case Readable(data) => data
    case OpenFails => []
    case ReadFails(data, k) => data[..Min(k * ChunkSize, |data|)]
  }

  /** The byte stream fed to the hasher for `paths`, read in that order. */
  function StreamOf(files: map<string, FileState>, paths: seq<string>): seq<byte>
  {
    if paths == [] then []
    else StreamOf(files, paths[..|paths| - 1]) + Delivered(FileAt(files, paths[|paths| - 1]))
  }

  /** The stream for a present folder: its files' contents in ascending path order. */
  function HashedStream(walk: seq<WalkStep>, files: map<string, FileState>): seq<byte>
  {
    StreamOf(files, PathOrder.Sort(WalkPaths(walk)))
  }

  /**
    The value `_folder_hash` returns: `""` exactly when the folder does not
    exist, otherwise the hex digest of the hashed stream.
   */
  function FolderDigest(folder: Folder, sha: seq<byte> -> HexDigest): (d: string)
    ensures d == "" <==> folder.Missing?
    ensures folder.Present? ==> |d| == 64 && forall i | 0 <= i < |d| :: IsHexDigit(d[i])
  {
    match folder
    case Missing => ""
    case Present(walk, files) => sha(HashedStream(walk, files))
  }

  /** A `hashlib.sha256()` object: what it holds is the stream fed to it so far. */
  class Sha256 {
    var fed: seq<byte>

    constructor ()
      ensures fed == []
    {
      fed := [];
    }

    /** `hasher.update(chunk)` */
    method Update(chunk: seq<byte>)
      modifies this
      ensures fed == old(fed) + chunk
    {
      fed := fed + chunk;
    }

    /** `hasher.hexdigest()` */
    function HexDigest(sha: seq<byte> -> HexDigest): (d: HexDigest)
      reads this
      ensures d == sha(fed)
    {
      sha(fed)
    }
  }

  /** The nested loop over `os.walk` that fills `files`. */
  method ListFiles(walk: seq<WalkStep>) returns (files: seq<string>)
    ensures files == WalkPaths(walk)
  {
    files := [];
    var i := 0;
    while i < |walk|
      invariant 0 <= i <= |walk|
      invariant files == WalkPaths(walk[..i])
    {
      var step := walk[i];
      var j := 0;
      while j < |step.filenames|
        invariant 0 <= j <= |step.filenames|
        invariant files == WalkPaths(walk[..i]) + StepPaths(step.root, step.filenames[..j])
      {
        files := files + [Join(step.root, step.filenames[j])];
        assert step.filenames[..j + 1][..j] == step.filenames[..j];
        j := j + 1;
      }
      assert step.filenames[..j] == step.filenames;
      assert walk[..i + 1][..i] == walk[..i];
      i := i + 1;
    }
    assert walk[..i] == walk;
  }

  /**
    Opening one file and feeding it to the hasher in reads of `ChunkSize` bytes
    until a read comes back empty; an exception ends the file, and what was fed
    before it stays fed.
   */
  method ReadInto(hasher: Sha256, st: FileState)
    modifies hasher
    ensures hasher.fed == old(hasher.fed) + Delivered(st)
  {
    if st.OpenFails? {
      return;
    }
    var data := st.data;
    var pos, done := 0, 0;
    while pos < |data| && !(st.ReadFails? && done == st.goodReads)
      invariant 0 <= pos <= |data|
      invariant pos == Min(done * ChunkSize, |data|)
      invariant st.ReadFails? ==> done <= st.goodReads
      invariant hasher.fed == old(hasher.fed) + data[..pos]
      decreases |data| - pos
    {
      var end := Min(pos + ChunkSize, |data|);
      hasher.Update(data[pos..end]);
      assert data[..end] == data[..pos] + data[pos..end];
      pos, done := end, done + 1;
    }
    assert st.Readable? ==> data[..pos] == data;
  }

  /** `_folder_hash(folder_path)` */
  method FolderHash(folder: Folder, sha: seq<byte> -> HexDigest) returns (digest: string)
    ensures digest == FolderDigest(folder, sha)
  {
    if folder.Missing? {
      return "";
    }
    var hasher := new Sha256();
    var files := ListFiles(folder.walk);
    files := PathOrder.Sort(files);
    var i := 0;
    while i < |files|
      invariant 0 <= i <= |files|
      invariant hasher.fed == StreamOf(folder.files, files[..i])
    {
      ReadInto(hasher, FileAt(folder.files, files[i]));
      assert files[..i + 1][..i] == files[..i];
      i := i + 1;
    }
    assert files[..i] == files;
    digest := hasher.HexDigest(sha);
  }

  /** Reading a list of paths in two parts feeds the two parts' streams one after the other. */
  lemma {:induction false} StreamOfAppend(files: map<string, FileState>, a: seq<string>, b: seq<string>)
    ensures StreamOf(files, a + b) == StreamOf(files, a) + StreamOf(files, b)
    decreases |b|
  {
    if b == [] {
      assert a + b == a;
    } else {
      var b' := b[..|b| - 1];
      assert (a + b)[..|a + b| - 1] == a + b';
      StreamOfAppend(files, a, b');
    }
  }

  /**
    A path that cannot be opened contributes nothing: the stream is the one
    for the listing without it.
   */
  lemma OpenFailureContributesNothing(files: map<string, FileState>, before: seq<string>, p: string, after: seq<string>)
    requires FileAt(files, p) == OpenFails
    ensures StreamOf(files, before + [p] + after) == StreamOf(files, before + after)
  {
    StreamOfAppend(files, before + [p], after);
    StreamOfAppend(files, before, after);
    assert (before + [p])[..|before + [p]| - 1] == before;
  }

  /**
    Only contents enter the stream: two listings whose files deliver the same
    bytes position by position give the same stream, whatever the paths are.
   */
  lemma {:induction false} StreamIsContentOnly(f1: map<string, FileState>, p1: seq<string>,
                                               f2: map<string, FileState>, p2: seq<string>)
    requires |p1| == |p2|
    requires forall i | 0 <= i < |p1| :: Delivered(FileAt(f1, p1[i])) == Delivered(FileAt(f2, p2[i]))
    ensures StreamOf(f1, p1) == StreamOf(f2, p2)
    decreases |p1|
  {
    if p1 != [] {
      StreamIsContentOnly(f1, p1[..|p1| - 1], f2, p2[..|p2| - 1]);
    }
  }

  /**
    The stream is the files' contents in ascending path order: for any
    ascending arrangement of the listed paths, it is that arrangement's stream.
   */
  lemma StreamInAscendingOrder(walk: seq<WalkStep>, files: map<string, FileState>, ordered: seq<string>)
    requires PathOrder.Sorted(ordered)
    requires multiset(ordered) == multiset(WalkPaths(walk))
    ensures HashedStream(walk, files) == StreamOf(files, ordered)
  {
    PathOrder.SortIsTheSortedPermutation(WalkPaths(walk), ordered);
  }

  /**
    The digest does not depend on the order in which `os.walk` yields
    directories and file names: two walks listing the same paths (with the
    same multiplicities) give the same digest.
   */
  lemma WalkOrderIrrelevant(w1: seq<WalkStep>, w2: seq<WalkStep>, files: map<string, FileState>,
                            sha: seq<byte> -> HexDigest)
    requires multiset(WalkPaths(w1)) == multiset(WalkPaths(w2))
    ensures FolderDigest(Present(w1, files), sha) == FolderDigest(Present(w2, files), sha)
  {
    PathOrder.SortIgnoresOrder(WalkPaths(w1), WalkPaths(w2));
  }

  /**
    A present folder without files is not reported as missing: its digest is
    the hash of the empty stream, which differs from the `""` of a missing folder.
   */
  lemma EmptyFolderIsNotMissing(walk: seq<WalkStep>, files: map<string, FileState>,
                                sha: seq<byte> -> HexDigest)
    requires WalkPaths(walk) == []
    ensures FolderDigest(Present(walk, files), sha) == sha([])
    ensures FolderDigest(Present(walk, files), sha) != FolderDigest(Missing, sha)
  {
    assert PathOrder.Sort(WalkPaths(walk)) == [];
  }

  /**
    Renaming a file keeps the digest when it keeps the file's place in the
    sorted listing: a folder holding one file gives the hash of that file's
    bytes, whatever the file is called.
   */
  lemma RenameKeepsDigest(root: string, a: string, b: string, data: seq<byte>,
                          sha: seq<byte> -> HexDigest)
    ensures var fa := Present([WalkStep(root, [a])], map[Join(root, a) := Readable(data)]);
            var fb := Present([WalkStep(root, [b])], map[Join(root, b) := Readable(data)]);
            FolderDigest(fa, sha) == FolderDigest(fb, sha) == sha(data)
  {
    SingleFileStream(root, a, data);
    SingleFileStream(root, b, data);
  }

  lemma SingleFileStream(root: string, name: string, data: seq<byte>)
    ensures HashedStream([WalkStep(root, [name])], map[Join(root, name) := Readable(data)]) == data
  {
    var walk := [WalkStep(root, [name])];
    var files := map[Join(root, name) := Readable(data)];
    assert walk[..0] == [];
    assert [name][..0] == [];
    assert StepPaths(root, [name]) == [] + [Join(root, name)];
    assert WalkPaths(walk) == WalkPaths([]) + StepPaths(root, [name]);
    PathOrder.LexLeIsTotalOrder();
    PathOrder.LexLeReflexive(Join(root, name));
    StreamInAscendingOrder(walk, files, [Join(root, name)]);
    assert [Join(root, name)][..0] == [];
  }
}
