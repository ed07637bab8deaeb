/** The host as the snapshot collector sees it. Everything it asks of the operating system is
    an oracle here: the regular files and their text, the directories, external commands,
    file copies and directory creation. */
module Host {
  import opened Text
  import opened Paths

  /** What `run_command` returns: whether the exit status was 0, and the two output streams. */
  datatype CommandResult = CommandResult(success: bool, stdout: string, stderr: string)

  /** The outcome of `shutil.copy2` or `shutil.copy`: done, or the text of the exception. */
  datatype CopyResult = Copied | CopyFailed(reason: string)

  datatype Host = Host(
    files: map<Path, string>,
    directories: set<Path>,
    run: seq<string> -> CommandResult,
    copy: (Path, Path) -> CopyResult,
    makeDir: (Path, bool) -> bool)

  /** A file the collector writes (`write_text`, or a file written line by line). */
  datatype Write = Write(path: Path, content: string)

  /** The text of `p` once the writes `ws` are done in order: the last write to `p` wins. */
  function LastWritten(ws: seq<Write>, p: Path): (r: Option<string>)
    ensures r.Some? <==> exists i :: 0 <= i < |ws| && ws[i].path == p
    ensures r.Some? ==> exists i :: 0 <= i < |ws| && ws[i] == Write(p, r.value)
    ensures ws != [] && ws[|ws| - 1].path == p ==> r == Some(ws[|ws| - 1].content)
    decreases |ws|
  {
    if ws == [] then None
    else if ws[|ws| - 1].path == p then Some(ws[|ws| - 1].content)
    else
      var r := LastWritten(ws[..|ws| - 1], p);
      assert forall i :: 0 <= i < |ws| - 1 ==> ws[..|ws| - 1][i] == ws[i];
      r
  }

  /** `p.is_file()`, and the text of the file when it is one. */
  function ReadFile(host: Host, p: Path): Option<string> {
    if p in host.files then Some(host.files[p]) else None
  }
}
