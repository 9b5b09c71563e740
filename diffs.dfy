/** `diff`: the two existence guards in front of the comparison, and which
    side is compared against which. */
module Diffs {
  import opened Model
  import opened Snapshots
  import opened Checkouts

  /** What `diff` does. `Compare` stands for the call to `unified_diff`, whose
      output is not modelled: it names the committed text as the "from" side
      and the working text as the "to" side. */
  datatype DiffOutcome =
    | NotInCommit         // "File name or commit id do not exist"
    | NotInWorking        // "Could not get current working directory path"
    | Undecodable         // reading the working file raises UnicodeDecodeError
    | Compare(fromFile: string, fromText: string, toFile: string, toText: string)

  function Diff(commits: map<string, Snapshot>, working: map<Path, Content>, file: Path, id: string): (r: DiffOutcome)
    ensures r == NotInCommit <==> id !in commits || file !in commits[id]
    ensures r == NotInWorking <==> id in commits && file in commits[id] && file !in working
    ensures r == Undecodable <==> id in commits && file in commits[id] && file in working && working[file].NonText?
    ensures r.Compare? ==> && r.fromFile == "committed" && r.toFile == "working"
                           && id in commits && file in commits[id] && r.fromText == commits[id][file]
                           && file in working && working[file] == Text(r.toText)
  {
    if id !in commits || file !in commits[id] then NotInCommit
    else if file !in working then NotInWorking
    else if working[file].NonText? then Undecodable
    else Compare("committed", commits[id][file], "working", working[file].text)
  }

  /** Right after a commit, every recorded file compares equal on both sides. */
  lemma DiffAfterCommit(commits: map<string, Snapshot>, id: string, source: string, working: map<Path, Content>, base: Snapshot, walk: seq<Path>, p: Path)
    requires Walked(working, walk)
    requires p in CopyWalk(source, working, base, walk).recorded
    ensures var store := commits[id := CopyWalk(source, working, base, walk).snapshot];
      Diff(store, working, p, id).Compare? && Diff(store, working, p, id).fromText == Diff(store, working, p, id).toText
  {
    CopyWalkAt(source, working, base, walk, p);
  }

  /** A non-text file that the commit skipped still passes the first guard,
      because of the placeholder, and then fails to decode instead of being
      reported as absent from the commit. */
  lemma DiffOfSkippedFile(commits: map<string, Snapshot>, id: string, source: string, working: map<Path, Content>, base: Snapshot, walk: seq<Path>, p: Path)
    requires Walked(working, walk)
    requires Copied(source, walk, p) && p in working && working[p].NonText?
    ensures Diff(commits[id := CopyWalk(source, working, base, walk).snapshot], working, p, id) == Undecodable
  {
    CopyWalkAt(source, working, base, walk, p);
  }

  /** After a checkout that approved a file, that file compares equal on both
      sides. */
  lemma DiffAfterCheckout(commits: map<string, Snapshot>, id: string, working: map<Path, Content>, order: seq<Path>, approvals: seq<bool>, p: Path)
    requires id in commits
    requires forall i :: 0 <= i < |order| ==> order[i] in commits[id]
    requires |order| <= |approvals|
    requires ApprovedFor(order, approvals, p)
    ensures var w := Restore(working, commits[id], order, approvals);
      Diff(commits, w, p, id).Compare? && Diff(commits, w, p, id).fromText == Diff(commits, w, p, id).toText
  {
    RestoreAt(working, commits[id], order, approvals, p);
  }
}
