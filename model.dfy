/** The values the tool works on: file contents, snapshots and log entries. */
module Model {

  /** A path relative to the working directory (or to a commit directory). */
  type Path = string

  /** A working-directory file: either it decodes as text, or reading it in
      text mode raises `UnicodeDecodeError`. */
  datatype Content = Text(text: string) | NonText(bytes: seq<bv8>)

  /** The files under `.vcs/commits/<id>/`, by relative path. They are
      written in text mode, so every one of them is text. */
  type Snapshot = map<Path, string>

  /** One record of `log.json`'s `commits` list. */
  datatype Entry = Entry(id: string, timestamp: string, message: string, files: seq<Path>)

  /** `.vcs/log.json`: absent, present with zero length, or a document
      holding the commit list. */
  datatype LogFile = Missing | ZeroLength | Document(commits: seq<Entry>)

  /** The commit list `log_commit` starts from: a zero-length file counts as
      no commits. */
  function Entries(log: LogFile): seq<Entry> {
    if log.Document? then log.commits else []
  }
}
