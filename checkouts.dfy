/** What `checkout` does to the working directory: one prompt per snapshot
    file, and an overwrite only for the files the answer approves. */
module Checkouts {
  import opened Strings
  import opened Model
  import opened Snapshots

  /** `input(...).strip().lower() == 'y'` */
  predicate Approved(answer: string) {
    Lower(Strip(answer)) == "y"
  }

  /** Only a lone `y` or `Y`, possibly surrounded by whitespace, approves. */
  lemma ApprovedIff(answer: string)
    ensures Approved(answer) <==> Strip(answer) == "y" || Strip(answer) == "Y"
  {
    var s := Strip(answer);
    if Approved(answer) {
      assert |Lower(s)| == |s| == 1;
      assert Lower(s)[0] == LowerChar(s[0]) == 'y';
      assert s == [s[0]];
    }
  }

  /** A `Y` between whitespace approves. */
  lemma PaddedYesApproves()
    ensures Approved(" Y\n")
  {
    assert " Y\n"[1..] == "Y\n";
    assert StripLeft(" Y\n") == "Y\n";
    assert "Y\n"[..1] == "Y";
    assert StripRight("Y\n") == "Y";
    assert Lower("Y") == "y";
  }

  /** Only the single letter approves: `yes` does not. */
  lemma WordYesDeclines()
    ensures !Approved("yes")
  {
    assert !IsSpace('y') && !IsSpace('s');
    assert StripLeft("yes") == "yes";
    assert StripRight("yes") == "yes";
    assert |Lower("yes")| == 3;
  }

  /** The order in which `os.walk` visits a commit directory: each of its
      files exactly once. */
  predicate IsWalkOf(order: seq<Path>, snap: Snapshot) {
    && (forall i :: 0 <= i < |order| ==> order[i] in snap)
    && (forall p :: p in snap ==> p in order)
    && (forall i, j :: 0 <= i < j < |order| ==> order[i] != order[j])
  }

  /** The approval decision for each answer, in prompt order. */
  function Decisions(answers: seq<string>): (d: seq<bool>)
    ensures |d| == |answers|
    ensures forall i :: 0 <= i < |answers| ==> d[i] == Approved(answers[i])
  {
    seq(|answers|, i requires 0 <= i < |answers| => Approved(answers[i]))
  }

  /** The working directory after the prompts for `order` were decided by
      `approvals`, in that order. */
  function Restore(working: map<Path, Content>, snap: Snapshot, order: seq<Path>, approvals: seq<bool>): map<Path, Content>
    requires forall i :: 0 <= i < |order| ==> order[i] in snap
    requires |order| <= |approvals|
    decreases |order|
  {
    if order == [] then working
    else
      var n := |order| - 1;
      var w := Restore(working, snap, order[..n], approvals);
      if approvals[n] then w[order[n] := Text(snap[order[n]])] else w
  }

  /** One more prompt: the file is written exactly when its answer approves. */
  lemma RestoreStep(working: map<Path, Content>, snap: Snapshot, order: seq<Path>, approvals: seq<bool>, i: nat)
    requires forall k :: 0 <= k < |order| ==> order[k] in snap
    requires i < |order| <= |approvals|
    ensures var w := Restore(working, snap, order[..i], approvals);
      Restore(working, snap, order[..i + 1], approvals)
        == if approvals[i] then w[order[i] := Text(snap[order[i]])] else w
  {
    assert order[..i + 1][..i] == order[..i];
  }

  /** Some prompt for `p` was approved. */
  predicate ApprovedFor(order: seq<Path>, approvals: seq<bool>, p: Path)
    requires |order| <= |approvals|
  {
    exists i :: 0 <= i < |order| && order[i] == p && approvals[i]
  }

  /** A path ends up with the snapshot content exactly when a prompt for it was
      approved; every other path keeps whatever it had (or stays absent). */
  lemma {:induction false} RestoreAt(working: map<Path, Content>, snap: Snapshot, order: seq<Path>, approvals: seq<bool>, p: Path)
    requires forall i :: 0 <= i < |order| ==> order[i] in snap
    requires |order| <= |approvals|
    ensures var r := Restore(working, snap, order, approvals);
      && (ApprovedFor(order, approvals, p) ==> p in snap && p in r && r[p] == Text(snap[p]))
      && (!ApprovedFor(order, approvals, p) ==> (p in r <==> p in working) && (p in working ==> r[p] == working[p]))
    decreases |order|
  {
    if order != [] {
      var n := |order| - 1;
      RestoreAt(working, snap, order[..n], approvals, p);
      if ApprovedFor(order, approvals, p) && !ApprovedFor(order[..n], approvals, p) {
        var i :| 0 <= i < |order| && order[i] == p && approvals[i];
        assert i == n;
      }
      if ApprovedFor(order[..n], approvals, p) {
        var i :| 0 <= i < n && order[..n][i] == p && approvals[i];
        assert order[i] == p;
      }
    }
  }

  /** With the snapshot walked once per file: a declined file and a path that
      is not in the snapshot are left as they were, and nothing outside the
      snapshot is created. */
  lemma OnlyApprovedFilesChange(working: map<Path, Content>, snap: Snapshot, order: seq<Path>, approvals: seq<bool>)
    requires IsWalkOf(order, snap) && |order| == |approvals|
    ensures var r := Restore(working, snap, order, approvals);
      && (forall k :: 0 <= k < |order| && !approvals[k] ==>
            (order[k] in r <==> order[k] in working) && (order[k] in working ==> r[order[k]] == working[order[k]]))
      && (forall p :: p !in snap ==> (p in r <==> p in working) && (p in working ==> r[p] == working[p]))
      && (forall p :: p in r && p !in working ==> p in snap)
  {
    var r := Restore(working, snap, order, approvals);
    forall k | 0 <= k < |order| && !approvals[k]
      ensures (order[k] in r <==> order[k] in working) && (order[k] in working ==> r[order[k]] == working[order[k]])
    {
      RestoreAt(working, snap, order, approvals, order[k]);
    }
    forall p | p !in snap || p in r
      ensures p !in snap ==> (p in r <==> p in working) && (p in working ==> r[p] == working[p])
      ensures p in r && p !in working ==> p in snap
    {
      RestoreAt(working, snap, order, approvals, p);
    }
  }

  /** Approving every prompt writes each snapshot file over the working copy
      and leaves every other path as it was. */
  lemma ApproveAllAt(working: map<Path, Content>, snap: Snapshot, order: seq<Path>, approvals: seq<bool>, p: Path)
    requires IsWalkOf(order, snap)
    requires |approvals| == |order| && forall i :: 0 <= i < |approvals| ==> approvals[i]
    ensures var r := Restore(working, snap, order, approvals);
      && (p in r <==> p in working || p in snap)
      && (p in r ==> r[p] == if p in snap then Text(snap[p]) else working[p])
  {
    RestoreAt(working, snap, order, approvals, p);
    if p in snap {
      var i :| 0 <= i < |order| && order[i] == p;
      assert approvals[i];
    }
  }

  /** Committing a working directory into a fresh commit directory and then
      approving every prompt of its checkout brings back every file as the
      commit stored it: a copied text file as it was, a walked, non-ignored
      file that is not text as the empty placeholder, and every other file
      untouched. No file appears or disappears. */
  lemma CommitThenApproveAll(source: string, working: map<Path, Content>, walk: seq<Path>, order: seq<Path>, approvals: seq<bool>)
    requires Walked(working, walk)
    requires IsWalkOf(order, CopyWalk(source, working, map[], walk).snapshot)
    requires |approvals| == |order| && forall i :: 0 <= i < |approvals| ==> approvals[i]
    ensures var r := Restore(working, CopyWalk(source, working, map[], walk).snapshot, order, approvals);
      && r.Keys == working.Keys
      && (forall p :: p in working ==> r[p] == if Copied(source, walk, p) then Text(Stored(working[p])) else working[p])
  {
    var snap := CopyWalk(source, working, map[], walk).snapshot;
    var r := Restore(working, snap, order, approvals);
    forall p | p in working || p in r
      ensures p in r <==> p in working
      ensures p in working ==> r[p] == if Copied(source, walk, p) then Text(Stored(working[p])) else working[p]
    {
      CopyWalkAt(source, working, map[], walk, p);
      ApproveAllAt(working, snap, order, approvals, p);
    }
  }
}
