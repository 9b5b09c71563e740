/** The commit log as `log` prints it, and what the log's ids look like
    when every commit went through. */
module CommitLog {
  import opened Strings
  import opened Model
  import opened CommitIds

  /** `timestamp.split('.')[0].replace('T', ' ')`: the part before the first
      '.', with every 'T' turned into a space. */
  function TruncateTimestamp(t: string): (r: string)
    ensures |r| <= |t| && (|r| == |t| || t[|r|] == '.')
    ensures forall i :: 0 <= i < |r| ==> r[i] == if t[i] == 'T' then ' ' else t[i]
    ensures '.' !in r && 'T' !in r
  {
    ReplaceChar(BeforeFirst(t, '.'), 'T', ' ')
  }

  /** An ISO timestamp `<date>T<time>.<fraction>`, as `isoformat()` writes
      one, prints as `<date> <time>`: the fraction is cut off and the 'T'
      becomes a space. */
  lemma IsoTimestampPrinted(date: string, time: string, fraction: string)
    requires '.' !in date && 'T' !in date && '.' !in time && 'T' !in time
    ensures TruncateTimestamp(date + "T" + time + "." + fraction) == date + " " + time
  {
    var head := date + "T" + time;
    assert date + "T" + time + "." + fraction == head + ("." + fraction);
    assert '.' !in head;
    BeforeFirstConcat(head, "." + fraction, '.');
    ReplaceCharConcat(date + "T", time, 'T', ' ');
    ReplaceCharConcat(date, "T", 'T', ' ');
    ReplaceCharAbsent(date, 'T', ' ');
    ReplaceCharAbsent(time, 'T', ' ');
    assert ReplaceChar("T", 'T', ' ') == " ";
  }

  /** When the microseconds are zero `isoformat()` writes no fraction, and
      `<date>T<time>` prints as `<date> <time>`. */
  lemma IsoTimestampWithoutFraction(date: string, time: string)
    requires '.' !in date && 'T' !in date && '.' !in time && 'T' !in time
    ensures TruncateTimestamp(date + "T" + time) == date + " " + time
  {
    var head := date + "T" + time;
    assert '.' !in head;
    BeforeFirstWhole(head, '.');
    ReplaceCharConcat(date + "T", time, 'T', ' ');
    ReplaceCharConcat(date, "T", 'T', ' ');
    ReplaceCharAbsent(date, 'T', ' ');
    ReplaceCharAbsent(time, 'T', ' ');
    assert ReplaceChar("T", 'T', ' ') == " ";
  }

  /** One line of `log`'s output: `<id> - <timestamp> - " <message>"`. */
  function FormatLogLine(e: Entry): string {
    e.id + " - " + TruncateTimestamp(e.timestamp) + " - \" " + e.message + "\""
  }

  /** A line made from a digit id can be taken apart again: the id is what
      comes before the first space, and the message sits between the final
      `" ` and the closing quote. */
  lemma {:induction false} LogLineFields(e: Entry)
    requires IsDigits(e.id)
    ensures var line := FormatLogLine(e);
      && BeforeFirst(line, ' ') == e.id
      && |line| == |e.id| + |TruncateTimestamp(e.timestamp)| + |e.message| + 9
      && line[|line| - |e.message| - 1..] == e.message + "\""
  {
    var line := FormatLogLine(e);
    var rest := " - " + TruncateTimestamp(e.timestamp) + " - \" " + e.message + "\"";
    assert line == e.id + rest;
    assert ' ' !in e.id by {
      forall i | 0 <= i < |e.id| ensures e.id[i] != ' ' {
        assert IsDigit(e.id[i]);
      }
    }
    BeforeFirstConcat(e.id, rest, ' ');
  }

  /** What `log` prints. */
  datatype LogReport =
    | NoCommitsYet        // the log file does not exist
    | Unreadable          // `json.load` fails on a zero-length file
    | Lines(lines: seq<string>)

  /** `show_log`: one formatted line per entry, in log order. */
  method ShowLog(log: LogFile) returns (r: LogReport)
    ensures r == NoCommitsYet <==> log.Missing?
    ensures r == Unreadable <==> log.ZeroLength?
    ensures log.Document? ==> r.Lines? && |r.lines| == |log.commits|
    ensures log.Document? ==> forall i :: 0 <= i < |log.commits| ==> r.lines[i] == FormatLogLine(log.commits[i])
  {
    if log.Missing? {
      return NoCommitsYet;
    }
    if log.ZeroLength? {
      return Unreadable;
    }
    var lines: seq<string> := [];
    for i := 0 to |log.commits|
      invariant |lines| == i
      invariant forall k :: 0 <= k < i ==> lines[k] == FormatLogLine(log.commits[k])
    {
      lines := lines + [FormatLogLine(log.commits[i])];
    }
    return Lines(lines);
  }

  /** The log holds the ids 0001, 0002, ... in order. */
  ghost predicate IdsInOrder(entries: seq<Entry>)
    decreases |entries|
  {
    entries == [] ||
    (IdsInOrder(entries[..|entries| - 1]) && entries[|entries| - 1].id == FormatId(|entries|))
  }

  lemma {:induction false} IdsInOrderAt(entries: seq<Entry>, i: nat)
    requires IdsInOrder(entries) && i < |entries|
    ensures entries[i].id == FormatId(i + 1)
    decreases |entries|
  {
    if i < |entries| - 1 {
      IdsInOrderAt(entries[..|entries| - 1], i);
    }
  }

  /** Appending the entry with the next id keeps the ids in order. */
  lemma IdsInOrderAppend(entries: seq<Entry>, e: Entry)
    requires IdsInOrder(entries) && e.id == FormatId(|entries| + 1)
    ensures IdsInOrder(entries + [e])
  {
    assert (entries + [e])[..|entries|] == entries;
  }

  /** Such a log numbers its commits 1, 2, ... without gaps, so its ids are
      strictly increasing and pairwise distinct. */
  lemma IdsIncreasing(entries: seq<Entry>)
    requires IdsInOrder(entries)
    ensures forall i :: 0 <= i < |entries| ==> IsDigits(entries[i].id) && DecimalValue(entries[i].id) == i + 1
    ensures forall i, j :: 0 <= i < j < |entries| ==> DecimalValue(entries[i].id) < DecimalValue(entries[j].id)
  {
    forall i | 0 <= i < |entries|
      ensures IsDigits(entries[i].id) && DecimalValue(entries[i].id) == i + 1
    {
      IdsInOrderAt(entries, i);
      FormatIdRoundTrip(i + 1);
    }
  }
}
