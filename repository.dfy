/** The repository as the tool changes it: the working directory, the
    commit store under `.vcs/commits/` and the log `.vcs/log.json`. */
module Vcs {
  import opened Model
  import opened CommitIds
  import opened Snapshots
  import opened Checkouts
  import opened CommitLog

  /** What `commit` ends with. */
  datatype CommitOutcome =
    | NoRepository               // `os.listdir('.vcs/commits/')` raises: nothing written
    | LogUnavailable(id: string)  // `os.stat(log_path)` raises after the snapshot was written
    | Created(id: string, files: seq<Path>)

  /** The commit store and the log agree: the log is a document whose ids
      are 0001..n in order, and the commit directories are exactly those n. */
  ghost predicate InStep(commits: map<string, Snapshot>, log: LogFile) {
    && log.Document?
    && |commits| == |log.commits|
    && commits.Keys == IdsUpTo(|log.commits|)
    && IdsInOrder(log.commits)
  }

  /** The files commit directory `id` already holds: none when it does not
      exist yet. */
  function Existing(commits: map<string, Snapshot>, id: string): Snapshot {
    if id in commits then commits[id] else map[]
  }

  /** A commit on a store and log that are in step uses a fresh id, whatever
      files it writes, and adding its directory together with its log entry
      leaves them in step. With `Commit`'s postcondition this is the
      invariant `Valid` kept across a commit. */
  lemma CommitKeepsStep(commits: map<string, Snapshot>, log: LogFile, snap: Snapshot, e: Entry)
    requires InStep(commits, log)
    requires e.id == FormatId(|commits| + 1)
    ensures e.id !in commits
    ensures InStep(commits[e.id := snap], Document(Entries(log) + [e]))
  {
    NextIdFresh(|commits|);
    assert commits[e.id := snap].Keys == commits.Keys + {e.id};
    IdsInOrderAppend(log.commits, e);
  }

  class Repository {
    var working: map<Path, Content>
    /** `.vcs/commits/` exists. */
    var rootExists: bool
    var commits: map<string, Snapshot>
    var log: LogFile

    /** The state every completed `init` and `commit` leaves behind. */
    ghost predicate Valid()
      reads this
    {
      rootExists && InStep(commits, log)
    }

    /** A directory that is not yet under version control. */
    constructor (files: map<Path, Content>)
      ensures working == files && !rootExists && commits == map[] && log == Missing
    {
      working := files;
      rootExists := false;
      commits := map[];
      log := Missing;
    }

    /** `init`: create `.vcs/commits/` if needed and write an empty log only if
        there is no log yet. */
    method Init() returns (created: bool)
      modifies this
      ensures rootExists && working == old(working) && commits == old(commits)
      ensures created == old(log).Missing?
      ensures log == if created then Document([]) else old(log)
      ensures old(commits) == map[] && created ==> Valid()
      ensures old(Valid()) ==> Valid()
    {
      rootExists := true;
      created := log.Missing?;
      if created {
        log := Document([]);
      }
    }

    /** A second `init` changes nothing. */
    method InitTwice() returns (first: bool, second: bool)
      modifies this
      ensures !second
      ensures rootExists && working == old(working) && commits == old(commits)
      ensures log == if old(log).Missing? then Document([]) else old(log)
    {
      first := Init();
      ghost var afterFirst := (working, rootExists, commits, log);
      second := Init();
      assert (working, rootExists, commits, log) == afterFirst;
    }

    /** `log_commit`: read the log (a zero-length file counts as no commits),
        append one entry and write the whole log back. */
    method LogCommit(id: string, message: string, files: seq<Path>, timestamp: string) returns (ok: bool)
      modifies this`log
      ensures ok == !old(log).Missing?
      ensures ok ==> log == Document(Entries(old(log)) + [Entry(id, timestamp, message, files)])
      ensures !ok ==> log == old(log)
    {
      if log.Missing? {
        return false;
      }
      var entries := if log.ZeroLength? then [] else log.commits;
      entries := entries + [Entry(id, timestamp, message, files)];
      log := Document(entries);
      ok := true;
    }

    /** The walk of `commit` (vcs.py lines 31-48): each walked file that
        passes the ignore filter is written into commit directory `id`, and
        the text files among them are recorded. */
    method CopyFiles(id: string, source: string, walk: seq<Path>, ghost base: Snapshot) returns (recorded: seq<Path>)
      requires Walked(working, walk)
      requires id in commits && commits[id] == base
      modifies this`commits
      ensures commits == old(commits)[id := CopyWalk(source, working, base, walk).snapshot]
      ensures recorded == CopyWalk(source, working, base, walk).recorded
    {
      // the directory's contents as the walk writes them, one file at a time
      var snap := commits[id];
      recorded := [];
      var i := 0;
      while i < |walk|
        invariant 0 <= i <= |walk|
        invariant commits == old(commits)
        invariant snap == CopyWalk(source, working, base, walk[..i]).snapshot
        invariant recorded == CopyWalk(source, working, base, walk[..i]).recorded
      {
        var rel := walk[i];
        CopyWalkStep(source, working, base, walk, i);
        if !IsIgnored(JoinPath(source, rel)) {
          if working[rel].Text? {
            snap := snap[rel := working[rel].text];
            recorded := recorded + [rel];
          } else {
            // the destination is created before the read fails to decode
            snap := snap[rel := ""];
          }
        }
        i := i + 1;
      }
      assert walk[..|walk|] == walk;
      commits := commits[id := snap];
    }

    /** The start of `commit` (vcs.py lines 24-27): the next id is the number
        of commit directories plus one, and its directory is created unless it
        exists already, in which case its files stay. */
    method NewCommitDirectory() returns (id: string)
      requires rootExists
      modifies this`commits
      ensures id == FormatId(|old(commits)| + 1)
      ensures commits == old(commits)[id := Existing(old(commits), id)]
    {
      id := FormatId(|commits| + 1);
      if id !in commits {
        commits := commits[id := map[]];
      }
    }

    /** `commit`: take the next id from the number of commit directories, copy
        the walked files (`walk`, relative to the absolute directory `source`)
        into that directory, and log the commit. */
    method Commit(source: string, walk: seq<Path>, message: string, timestamp: string) returns (r: CommitOutcome)
      requires Walked(working, walk)
      modifies this`commits, this`log
      ensures r.NoRepository? <==> !old(rootExists)
      ensures r.NoRepository? ==> commits == old(commits) && log == old(log)
      ensures !r.NoRepository? ==> r.id == FormatId(|old(commits)| + 1)
      ensures !r.NoRepository? ==>
        commits == old(commits)[r.id := CopyWalk(source, working, Existing(old(commits), r.id), walk).snapshot]
      ensures r.LogUnavailable? <==> old(rootExists) && old(log).Missing?
      ensures r.LogUnavailable? ==> log == old(log)
      ensures r.Created? ==>
        && r.files == CopyWalk(source, working, Existing(old(commits), r.id), walk).recorded
        && log == Document(Entries(old(log)) + [Entry(r.id, timestamp, message, r.files)])
    {
      if !rootExists {
        return NoRepository;
      }
      var id := NewCommitDirectory();
      var recorded := CopyFiles(id, source, walk, Existing(old(commits), id));
      assert commits == old(commits)[id := Existing(old(commits), id)][id := commits[id]] == old(commits)[id := commits[id]];
      var ok := LogCommit(id, message, recorded, timestamp);
      if !ok {
        return LogUnavailable(id);
      }
      r := Created(id, recorded);
    }

    /** On a repository whose store and log are in step, `commit` always
        completes, under a fresh id, and keeps them in step. */
    method CommitInStep(source: string, walk: seq<Path>, message: string, timestamp: string) returns (r: CommitOutcome)
      requires Valid() && Walked(working, walk)
      modifies this`commits, this`log
      ensures Valid()
      ensures r.Created? && r.id == FormatId(|old(commits)| + 1) && r.id !in old(commits)
      ensures commits == old(commits)[r.id := CopyWalk(source, working, map[], walk).snapshot]
      ensures r.files == CopyWalk(source, working, map[], walk).recorded
      ensures log == Document(old(log).commits + [Entry(r.id, timestamp, message, r.files)])
      ensures forall k :: k in old(commits) ==> k in commits && commits[k] == old(commits)[k]
    {
      r := Commit(source, walk, message, timestamp);
      CommitKeepsStep(old(commits), old(log), commits[r.id], Entry(r.id, timestamp, message, r.files));
      assert Existing(old(commits), r.id) == map[];
    }

    /** `checkout`: nothing happens for an unknown id; otherwise each file of
        the commit, in `order`, is written over the working copy when its
        answer in `answers` approves. */
    method Checkout(id: string, order: seq<Path>, answers: seq<string>) returns (found: bool)
      requires id in commits ==> IsWalkOf(order, commits[id]) && |answers| == |order|
      modifies this`working
      ensures found == (id in commits)
      ensures !found ==> working == old(working)
      ensures found ==> working == Restore(old(working), commits[id], order, Decisions(answers))
      ensures old(Valid()) ==> Valid()
    {
      if id !in commits {
        return false;
      }
      found := true;
      var snap := commits[id];
      var approvals := Decisions(answers);
      var i := 0;
      while i < |order|
        invariant 0 <= i <= |order|
        invariant working == Restore(old(working), snap, order[..i], approvals)
      {
        RestoreStep(old(working), snap, order, approvals, i);
        if approvals[i] {
          working := working[order[i] := Text(snap[order[i]])];
        }
        i := i + 1;
      }
      assert order[..|order|] == order;
    }
  }

  /** Two commits on a fresh repository get the ids 0001 and 0002, and the log
      lists both in that order. */
  method TwoCommits(files: map<Path, Content>, source: string, walk: seq<Path>) returns (first: CommitOutcome, second: CommitOutcome, entries: seq<Entry>)
    requires Walked(files, walk)
    ensures first.Created? && first.id == "0001"
    ensures second.Created? && second.id == "0002"
    ensures |entries| == 2 && entries[0].id == "0001" && entries[1].id == "0002"
    ensures entries[0].message == "first" && entries[1].message == "second"
  {
    var repo := new Repository(files);
    var _ := repo.Init();
    FirstIds();
    first := repo.Commit(source, walk, "first", "2024-05-01T12:00:00.000001");
    assert |repo.commits| == 1 && |repo.log.commits| == 1;
    second := repo.Commit(source, walk, "second", "2024-05-01T12:05:00.000002");
    entries := repo.log.commits;
  }
}
