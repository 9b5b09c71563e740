/** What `commit` writes into a new commit directory: the walk over the
    source directory, the ignore filter and the per-file copy. */
module Snapshots {
  import opened Strings
  import opened Model

  /** `os.path.join(root, file)` for a file at relative path `rel` below the
      absolute directory `dir`. */
  function JoinPath(dir: string, rel: Path): string {
    if dir != [] && dir[|dir| - 1] == '/' then dir + rel else dir + "/" + rel
  }

  /** The four substrings whose presence anywhere in the ABSOLUTE walked path
      makes `commit` skip the file. */
  predicate IsIgnored(path: string) {
    IsSubstring(".vcs", path) || IsSubstring(".venv", path)
    || IsSubstring(".idea", path) || IsSubstring("vcs.py", path)
  }

  /** A relative path that names the tool's own files is skipped whatever the
      source directory: in particular everything under `.vcs/`. */
  lemma IgnoredRelative(dir: string, rel: Path)
    requires IsIgnored(rel)
    ensures IsIgnored(JoinPath(dir, rel))
  {
    var sub :| sub in [".vcs", ".venv", ".idea", "vcs.py"] && IsSubstring(sub, rel);
    if dir != [] && dir[|dir| - 1] == '/' {
      SubstringOfSuffix(sub, dir, rel);
    } else {
      SubstringOfSuffix(sub, dir + "/", rel);
      assert dir + "/" + rel == (dir + "/") + rel;
    }
  }

  /** The test is on the absolute path, so a source directory whose own path
      contains one of the substrings has every file skipped. */
  lemma IgnoredDirectory(dir: string, rel: Path)
    requires IsIgnored(dir)
    ensures IsIgnored(JoinPath(dir, rel))
  {
    var sub :| sub in [".vcs", ".venv", ".idea", "vcs.py"] && IsSubstring(sub, dir);
    if dir != [] && dir[|dir| - 1] == '/' {
      SubstringOfPrefix(sub, dir, rel);
    } else {
      SubstringOfPrefix(sub, dir, "/" + rel);
      assert dir + "/" + rel == dir + ("/" + rel);
    }
  }

  lemma StorePathIgnored(dir: string, rest: string)
    ensures IsIgnored(JoinPath(dir, ".vcs/" + rest))
  {
    assert ".vcs" <= ".vcs/" + rest;
    IgnoredRelative(dir, ".vcs/" + rest);
  }

  /** The snapshot written so far and the `committed_files` list. */
  datatype CopyResult = CopyResult(snapshot: Snapshot, recorded: seq<Path>)

  /** Every walked path names a file of the working directory. */
  predicate Walked(working: map<Path, Content>, walk: seq<Path>) {
    forall i :: 0 <= i < |walk| ==> walk[i] in working
  }

  /** The content a copied file ends up with in the snapshot. The destination
      is opened for writing before the source is decoded, so a non-text file
      leaves an empty file behind. */
  function Stored(c: Content): string {
    if c.Text? then c.text else ""
  }

  /** One iteration of the walk (vcs.py lines 33-48). */
  function CopyStep(source: string, working: map<Path, Content>, acc: CopyResult, rel: Path): CopyResult
    requires rel in working
  {
    if IsIgnored(JoinPath(source, rel)) then acc
    else if working[rel].Text? then
      CopyResult(acc.snapshot[rel := working[rel].text], acc.recorded + [rel])
    else
      CopyResult(acc.snapshot[rel := ""], acc.recorded)
  }

  /** The walk over `walk`, in order, starting from the files already in the
      commit directory (`base`). */
  function CopyWalk(source: string, working: map<Path, Content>, base: Snapshot, walk: seq<Path>): CopyResult
    requires Walked(working, walk)
    decreases |walk|
  {
    if walk == [] then CopyResult(base, [])
    else
      var n := |walk| - 1;
      CopyStep(source, working, CopyWalk(source, working, base, walk[..n]), walk[n])
  }

  /** The walk over one more path is one more step. */
  lemma CopyWalkStep(source: string, working: map<Path, Content>, base: Snapshot, walk: seq<Path>, i: nat)
    requires Walked(working, walk) && i < |walk|
    ensures CopyWalk(source, working, base, walk[..i + 1])
         == CopyStep(source, working, CopyWalk(source, working, base, walk[..i]), walk[i])
  {
    assert walk[..i + 1][..i] == walk[..i];
  }

  /** The path is visited by the walk and passes the ignore filter. */
  predicate Copied(source: string, walk: seq<Path>, p: Path) {
    p in walk && !IsIgnored(JoinPath(source, p))
  }

  /** What the walk leaves in the snapshot at one path: a file exactly for the
      paths already there and the copied ones; a copied text file with its
      source content; a copied non-text file as an empty file; untouched
      files unchanged. */
  lemma {:induction false} CopyWalkSnapshotAt(source: string, working: map<Path, Content>, base: Snapshot, walk: seq<Path>, p: Path)
    requires Walked(working, walk)
    ensures Copied(source, walk, p) ==> p in working
    ensures var snap := CopyWalk(source, working, base, walk).snapshot;
      && (p in snap <==> p in base || Copied(source, walk, p))
      && (Copied(source, walk, p) ==> snap[p] == Stored(working[p]))
      && (!Copied(source, walk, p) && p in base ==> snap[p] == base[p])
    decreases |walk|
  {
    if walk != [] {
      var n := |walk| - 1;
      assert walk == walk[..n] + [walk[n]];
      assert p in walk <==> p in walk[..n] || p == walk[n];
      CopyWalkSnapshotAt(source, working, base, walk[..n], p);
    }
  }

  /** `committed_files` names exactly the copied text files. */
  lemma {:induction false} CopyWalkRecordedAt(source: string, working: map<Path, Content>, base: Snapshot, walk: seq<Path>, p: Path)
    requires Walked(working, walk)
    ensures p in CopyWalk(source, working, base, walk).recorded <==> Copied(source, walk, p) && working[p].Text?
    decreases |walk|
  {
    if walk != [] {
      var n := |walk| - 1;
      assert walk == walk[..n] + [walk[n]];
      assert p in walk <==> p in walk[..n] || p == walk[n];
      var prev := CopyWalk(source, working, base, walk[..n]).recorded;
      assert p in prev + [walk[n]] <==> p in prev || p == walk[n];
      CopyWalkRecordedAt(source, working, base, walk[..n], p);
    }
  }

  /** Both halves together. */
  lemma CopyWalkAt(source: string, working: map<Path, Content>, base: Snapshot, walk: seq<Path>, p: Path)
    requires Walked(working, walk)
    ensures Copied(source, walk, p) ==> p in working
    ensures var c := CopyWalk(source, working, base, walk);
      && (p in c.snapshot <==> p in base || Copied(source, walk, p))
      && (Copied(source, walk, p) ==> c.snapshot[p] == Stored(working[p]))
      && (!Copied(source, walk, p) && p in base ==> c.snapshot[p] == base[p])
      && (p in c.recorded <==> Copied(source, walk, p) && working[p].Text?)
  {
    CopyWalkSnapshotAt(source, working, base, walk, p);
    CopyWalkRecordedAt(source, working, base, walk, p);
  }

  /** Nothing whose absolute path contains an ignored substring is written into
      a fresh commit directory or listed in `committed_files`. */
  lemma IgnoredPathsExcluded(source: string, working: map<Path, Content>, walk: seq<Path>)
    requires Walked(working, walk)
    ensures var c := CopyWalk(source, working, map[], walk);
      && (forall p :: p in c.snapshot ==> p in walk && !IsIgnored(JoinPath(source, p)))
      && (forall p :: p in c.recorded ==> p in walk && !IsIgnored(JoinPath(source, p)))
  {
    var c := CopyWalk(source, working, map[], walk);
    forall p | p in c.snapshot || p in c.recorded
      ensures p in walk && !IsIgnored(JoinPath(source, p))
    {
      CopyWalkAt(source, working, map[], walk, p);
    }
  }

  /** Every recorded path was a text file whose snapshot copy equals it; every
      walked, non-ignored text file is recorded. */
  lemma RecordedFilesMatchSource(source: string, working: map<Path, Content>, base: Snapshot, walk: seq<Path>)
    requires Walked(working, walk)
    ensures var c := CopyWalk(source, working, base, walk);
      && (forall p :: p in c.recorded ==> p in working && p in c.snapshot && working[p] == Text(c.snapshot[p]))
      && (forall p :: Copied(source, walk, p) && p in working && working[p].Text? ==> p in c.recorded)
  {
    var c := CopyWalk(source, working, base, walk);
    forall p | p in c.recorded || (Copied(source, walk, p) && p in working)
      ensures p in c.recorded ==> p in working && p in c.snapshot && working[p] == Text(c.snapshot[p])
      ensures Copied(source, walk, p) && p in working && working[p].Text? ==> p in c.recorded
    {
      CopyWalkAt(source, working, base, walk, p);
    }
  }

  /** A walked, non-ignored file that fails to decode is not recorded, yet it
      leaves an empty file at its snapshot path. */
  lemma SkippedFilesLeavePlaceholder(source: string, working: map<Path, Content>, base: Snapshot, walk: seq<Path>, p: Path)
    requires Walked(working, walk)
    requires Copied(source, walk, p) && p in working && working[p].NonText?
    ensures var c := CopyWalk(source, working, base, walk);
      p !in c.recorded && p in c.snapshot && c.snapshot[p] == ""
  {
    CopyWalkAt(source, working, base, walk, p);
  }
}
