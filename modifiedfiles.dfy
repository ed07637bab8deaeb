/** `collect_modified_files`: the files of the application tree that `find` reports as
    modified in the outage window are copied under `modified_files/`, keeping their place
    relative to the application root, and listed in a manifest. */
module ModifiedFiles {
  import opened Text
  import opened Clock
  import opened TimeFormat
  import opened Paths
  import opened Host

  // What `find -type f -newermt start -not -newermt end` selects

  /** A modification time: a date-time to the second and the nanoseconds within it. */
  datatype Moment = Moment(time: DateTime, nanos: nat)

  datatype TreeEntry = TreeEntry(path: Path, regular: bool, mtime: Moment)

  /** `-newermt t`: modified strictly later than `t`. */
  predicate NewerMt(m: Moment, t: DateTime) {
    Before(t, m.time) || (m.time == t && m.nanos > 0)
  }

  predicate Selected(e: TreeEntry, start: DateTime, end: DateTime) {
    e.regular && NewerMt(e.mtime, start) && !NewerMt(e.mtime, end)
  }

  predicate ValidMoment(m: Moment) {
    Valid(m.time) && m.nanos < 1_000_000_000
  }

  /** Nanoseconds since 0001-01-01 00:00:00. */
  function Instant(m: Moment): int
    requires ValidMoment(m)
  {
    Seconds(m.time) * 1_000_000_000 + m.nanos
  }

  lemma NewerMtMeaning(m: Moment, t: DateTime)
    requires ValidMoment(m) && Valid(t)
    ensures NewerMt(m, t) <==> Instant(Moment(t, 0)) < Instant(m)
  {
    BeforeIsChronological(t, m.time);
    OrderFacts(t, m.time, t);
    if Before(m.time, t) {
      BeforeIsChronological(m.time, t);
    }
  }

  /** A file is selected exactly when it is a regular file and start < mtime <= end: the
      window is open at its start and closed at its end. */
  lemma SelectedHalfOpen(e: TreeEntry, start: DateTime, end: DateTime)
    requires ValidMoment(e.mtime) && Valid(start) && Valid(end)
    ensures Selected(e, start, end)
            <==> e.regular && Instant(Moment(start, 0)) < Instant(e.mtime) <= Instant(Moment(end, 0))
  {
    NewerMtMeaning(e.mtime, start);
    NewerMtMeaning(e.mtime, end);
  }

  /** Unlike the log filter, which keeps a line stamped with the start time, a file modified
      exactly at the start is not selected; one modified exactly at the end is. */
  lemma SelectionBoundaries(path: Path, start: DateTime, end: DateTime)
    requires Before(start, end)
    ensures !Selected(TreeEntry(path, true, Moment(start, 0)), start, end)
    ensures Selected(TreeEntry(path, true, Moment(end, 0)), start, end)
  {
    OrderFacts(start, end, start);
  }

  /** `'%Y-%m-%d %H:%M:%S'` of the two bounds. */
  function FindCommand(appPath: Path, start: DateTime, end: DateTime): seq<string>
    requires Valid(start) && Valid(end)
  {
    ["find", ToString(appPath), "-type", "f",
     "-newermt", FormatTime(start, IsoFormat), "-not", "-newermt", FormatTime(end, IsoFormat)]
  }

  lemma IsoFormatFacts()
    ensures Complete(IsoFormat) && Offset !in IsoFormat
  {
    var f := IsoFormat;
    assert Target(f[0]) == Some(FYear) && Target(f[2]) == Some(FMonth) && Target(f[4]) == Some(FDay);
    assert Target(f[6]) == Some(FHour) && Target(f[8]) == Some(FMinute) && Target(f[10]) == Some(FSecond);
  }

  /** The bounds handed to `find` read back as the outage window itself. */
  lemma FindCommandWindow(appPath: Path, start: DateTime, end: DateTime)
    requires Valid(start) && Valid(end)
    ensures |FindCommand(appPath, start, end)| == 9
    ensures Parse(FindCommand(appPath, start, end)[5], IsoFormat) == Some(Naive(start))
    ensures Parse(FindCommand(appPath, start, end)[8], IsoFormat) == Some(Naive(end))
  {
    IsoFormatFacts();
    FormatThenParse(start, IsoFormat);
    FormatThenParse(end, IsoFormat);
  }

  // The entries of find's output

  /** `stdout.strip().split('\n')` */
  function FindEntries(stdout: string): (entries: seq<string>)
    ensures |entries| >= 1
  {
    Split(Strip(stdout), '\n')
  }

  /** The first entry is blank exactly when the output is nothing but whitespace. */
  lemma FirstEntryBlank(stdout: string)
    ensures FindEntries(stdout)[0] == "" <==> Strip(stdout) == ""
  {
    var s := Strip(stdout);
    if s != "" {
      var l := StripLeft(stdout);
      assert s[0] == l[0];
      assert IsSpace('\n');
      assert s[0] != '\n';
      assert Split(s, '\n')[0] == [s[0]] + Split(s[1..], '\n')[0];
    }
  }

  // Copying

  /** The manifest text and the `copied_files` list built so far. */
  datatype Progress = Progress(manifest: string, copied: seq<string>)

  /** `dest_dir / Path(entry).relative_to(app_path)`; `None` where `relative_to` raises
      `ValueError` because the entry is not under the application path. */
  function Dest(appPath: Path, destDir: Path, entry: string): Option<Path> {
    match RelativeTo(FromString(entry), appPath)
    case None => None
    case Some(rel) => Some(Concat(destDir, rel))
  }

  /** What the loop body does with one entry. */
  datatype Effect =
    | Skip                                  // a blank entry
    | Break                                 // an uncaught exception ends the script
    | Copy(dest: Path)                      // copied to `dest`
    | Fail(dest: Path, reason: string)      // the copy to `dest` raised

  /** The loop body's decision for an entry: a blank one is skipped; one not under the
      application path, or whose destination directory cannot be created
      (`mkdir(parents=True, exist_ok=True)` raises), ends the script; otherwise the copy
      succeeds or fails. */
  function EntryEffect(host: Host, appPath: Path, destDir: Path, entry: string): (eff: Effect)
    ensures eff.Skip? <==> entry == ""
    ensures eff.Break? <==> entry != "" && (Dest(appPath, destDir, entry).None?
                                            || !host.makeDir(Parent(Dest(appPath, destDir, entry).value), true))
    ensures eff.Copy? || eff.Fail? ==> Dest(appPath, destDir, entry) == Some(eff.dest)
    ensures eff.Copy? <==> !eff.Skip? && !eff.Break? && host.copy(FromString(entry), eff.dest) == Copied
  {
    if entry == "" then Skip
    else
      match Dest(appPath, destDir, entry)
      case None => Break
      case Some(dest) =>
        if !host.makeDir(Parent(dest), true) then Break
        else
          match host.copy(FromString(entry), dest)
          case Copied => Copy(dest)
          case CopyFailed(reason) => Fail(dest, reason)
  }

  /** The loop body's decisions, entry by entry. The loop's properties below are proved for
      any such decision; `Decide` is the one the host makes. */
  type Decision = string -> Effect

  function Decide(host: Host, appPath: Path, destDir: Path): Decision {
    (entry: string) => EntryEffect(host, appPath, destDir, entry)
  }

  predicate Breaks(d: Decision, entry: string) {
    d(entry).Break?
  }

  /** An entry whose copy goes through. */
  predicate Copies(d: Decision, entry: string) {
    d(entry).Copy?
  }

  function FailedLine(entry: string, reason: string): string {
    "# FAILED TO COPY: " + entry + " - REASON: " + reason + "\n"
  }

  /** The manifest line an entry that does not break the script adds: none for a skipped
      entry, the entry itself after a successful copy, a `# FAILED TO COPY` line otherwise. */
  function ManifestLine(d: Decision, entry: string): (line: string)
    requires !Breaks(d, entry)
    ensures line == "" <==> d(entry).Skip?
    ensures Copies(d, entry) ==> line == entry + "\n"
    ensures d(entry).Fail? ==> StartsWith(line, "# FAILED TO COPY: " + entry) && EndsWith(line, "\n")
  {
    match d(entry)
    case Skip => ""
    case Copy(_) => entry + "\n"
    case Fail(_, reason) =>
      var line := FailedLine(entry, reason);
      assert line[..|"# FAILED TO COPY: " + entry|] == "# FAILED TO COPY: " + entry;
      line
  }

  /** One pass of the loop body. */
  function Step(d: Decision, p: Progress, entry: string): Option<Progress> {
    match d(entry)
    case Skip => Some(p)
    case Break => None
    case Copy(dest) => Some(Progress(p.manifest + entry + "\n", p.copied + [ToString(dest)]))
    case Fail(_, reason) => Some(Progress(p.manifest + FailedLine(entry, reason), p.copied))
  }

  /** The loop over the entries, from the progress `p`; `None` once an entry broke it. */
  function Run(d: Decision, p: Progress, entries: seq<string>): Option<Progress>
    decreases |entries|
  {
    if entries == [] then Some(p)
    else
      match Run(d, p, entries[..|entries| - 1])
      case None => None
      case Some(q) => Step(d, q, entries[|entries| - 1])
  }

  lemma {:induction false} RunCrashPersists(d: Decision, p: Progress, entries: seq<string>, k: nat)
    requires k <= |entries| && Run(d, p, entries[..k]).None?
    ensures Run(d, p, entries).None?
    decreases |entries|
  {
    if k < |entries| {
      var init := entries[..|entries| - 1];
      assert init[..k] == entries[..k];
      RunCrashPersists(d, p, init, k);
    } else {
      assert entries[..k] == entries;
    }
  }

  /** The loop of `collect_modified_files` over the entries. */
  method CopyEntries(host: Host, appPath: Path, destDir: Path, header: string, modifiedFiles: seq<string>)
    returns (done: Option<Progress>)
    ensures done == Run(Decide(host, appPath, destDir), Progress(header, []), modifiedFiles)
  {
    var manifest := header;
    var copied: seq<string> := [];
    ghost var d := Decide(host, appPath, destDir);
    ghost var begin := Progress(header, []);
    var i := 0;
    while i < |modifiedFiles|
      invariant 0 <= i <= |modifiedFiles|
      invariant Run(d, begin, modifiedFiles[..i]) == Some(Progress(manifest, copied))
    {
      var fileStr := modifiedFiles[i];
      assert modifiedFiles[..i + 1][..i] == modifiedFiles[..i];
      assert d(fileStr) == EntryEffect(host, appPath, destDir, fileStr);
      if fileStr != "" {
        var destFilePath := Dest(appPath, destDir, fileStr);
        if destFilePath.None? {
          RunCrashPersists(d, begin, modifiedFiles, i + 1);
          return None;
        }
        if !host.makeDir(Parent(destFilePath.value), true) {
          RunCrashPersists(d, begin, modifiedFiles, i + 1);
          return None;
        }
        var copy := host.copy(FromString(fileStr), destFilePath.value);
        if copy.Copied? {
          manifest := manifest + fileStr + "\n";
          copied := copied + [ToString(destFilePath.value)];
        } else {
          manifest := manifest + FailedLine(fileStr, copy.reason);
        }
      }
      i := i + 1;
    }
    assert modifiedFiles[..i] == modifiedFiles;
    return Some(Progress(manifest, copied));
  }

  datatype ModifiedResult = ModifiedResult(copiedFiles: seq<string>, manifestPath: string, error: Option<string>)

  /** How `collect_modified_files` ends: with its results and the manifest it wrote, or by an
      uncaught exception that ends the script (`modified_files` exists already, an entry is
      not under the application path, or a destination directory cannot be created). */
  datatype Outcome = Done(result: ModifiedResult, manifest: Option<Write>) | Crashed

  const AppPathMissing := "Application path not found."

  function Header(startText: string, endText: string): string {
    "# Files modified between " + startText + " and " + endText + "\n\n"
  }

  function DestDir(outputDir: Path): Path {
    Child(outputDir, "modified_files")
  }

  function ManifestPath(outputDir: Path): Path {
    Child(outputDir, "modified_files_manifest.txt")
  }

  /** What `collect_modified_files` does on a host. */
  function Collect(host: Host, outputDir: Path, appPath: Path, start: DateTime, end: DateTime): Outcome
    requires Valid(start) && Valid(end)
  {
    if appPath !in host.directories then Done(ModifiedResult([], "", Some(AppPathMissing)), None)
    else
      var out := host.run(FindCommand(appPath, start, end));
      if !out.success then Done(ModifiedResult([], "", Some(out.stderr)), None)
      else CopyAll(host, outputDir, appPath, Header(FormatTime(start, IsoFormat), FormatTime(end, IsoFormat)),
                   FindEntries(out.stdout))
  }

  /** What happens to the entries of a successful `find`. */
  function CopyAll(host: Host, outputDir: Path, appPath: Path, header: string, entries: seq<string>): Outcome
    requires entries != []
  {
    if entries[0] == "" then Done(ModifiedResult([], "", None), None)
    else if !host.makeDir(DestDir(outputDir), false) then Crashed
    else
      match Run(Decide(host, appPath, DestDir(outputDir)), Progress(header, []), entries)
      case None => Crashed
      case Some(p) =>
        Done(ModifiedResult(p.copied, ToString(ManifestPath(outputDir)), None),
             Some(Write(ManifestPath(outputDir), p.manifest)))
  }

  /** `collect_modified_files` */
  method CollectModifiedFiles(host: Host, outputDir: Path, appPath: Path, start: DateTime, end: DateTime)
    returns (outcome: Outcome)
    requires Valid(start) && Valid(end)
    ensures outcome == Collect(host, outputDir, appPath, start, end)
  {
    if appPath !in host.directories {
      return Done(ModifiedResult([], "", Some(AppPathMissing)), None);
    }
    var startText := FormatTime(start, IsoFormat);
    var endText := FormatTime(end, IsoFormat);
    var cmd := ["find", ToString(appPath), "-type", "f", "-newermt", startText, "-not", "-newermt", endText];
    var out := host.run(cmd);
    if !out.success {
      return Done(ModifiedResult([], "", Some(out.stderr)), None);
    }
    var modifiedFiles := Split(Strip(out.stdout), '\n');
    if modifiedFiles[0] == "" {
      return Done(ModifiedResult([], "", None), None);
    }
    var destDir := Child(outputDir, "modified_files");
    if !host.makeDir(destDir, false) {
      return Crashed;
    }
    var manifestPath := Child(outputDir, "modified_files_manifest.txt");
    var done := CopyEntries(host, appPath, destDir, Header(startText, endText), modifiedFiles);
    if done.None? {
      return Crashed;
    }
    return Done(ModifiedResult(done.value.copied, ToString(manifestPath), None),
                Some(Write(manifestPath, done.value.manifest)));
  }

  // What the loop computes

  lemma StepMeaning(d: Decision, p: Progress, e: string)
    ensures Step(d, p, e).None? <==> Breaks(d, e)
    ensures !Breaks(d, e) ==>
            && Step(d, p, e).value.manifest == p.manifest + ManifestLine(d, e)
            && Step(d, p, e).value.copied == p.copied + (if Copies(d, e) then [ToString(d(e).dest)] else [])
  {
    match d(e)
    case Skip =>
      assert p.manifest + "" == p.manifest && p.copied + [] == p.copied;
    case Break =>
    case Copy(dest) =>
      assert p.manifest + e + "\n" == p.manifest + (e + "\n");
    case Fail(_, _) =>
      assert p.copied + [] == p.copied;
  }

  /** The loop stops the script exactly when one of the entries breaks it. */
  lemma {:induction false} RunCrashes(d: Decision, p: Progress, entries: seq<string>)
    ensures Run(d, p, entries).None? <==> exists i :: 0 <= i < |entries| && Breaks(d, entries[i])
    decreases |entries|
  {
    if entries != [] {
      var init := entries[..|entries| - 1];
      var last := entries[|entries| - 1];
      RunCrashes(d, p, init);
      var r := Run(d, p, init);
      if r.Some? {
        StepMeaning(d, r.value, last);
      }
      if exists i :: 0 <= i < |init| && Breaks(d, init[i]) {
        var i :| 0 <= i < |init| && Breaks(d, init[i]);
        assert entries[i] == init[i];
      }
      if exists i :: 0 <= i < |entries| && Breaks(d, entries[i]) {
        var i :| 0 <= i < |entries| && Breaks(d, entries[i]);
        if i < |init| {
          assert init[i] == entries[i];
        }
      }
    }
  }

  /** The destinations of the successful copies, in entry order. */
  function CopiedDests(d: Decision, entries: seq<string>): seq<string>
    decreases |entries|
  {
    if entries == [] then []
    else (if Copies(d, entries[0]) then [ToString(d(entries[0]).dest)] else []) + CopiedDests(d, entries[1..])
  }

  /** The manifest lines of the entries, in entry order. */
  function ManifestText(d: Decision, entries: seq<string>): string
    requires forall i :: 0 <= i < |entries| ==> !Breaks(d, entries[i])
    decreases |entries|
  {
    if entries == [] then ""
    else
      assert !Breaks(d, entries[0]);
      ManifestLine(d, entries[0]) + ManifestText(d, entries[1..])
  }

  function CountCopies(d: Decision, entries: seq<string>): nat
    decreases |entries|
  {
    if entries == [] then 0
    else (if Copies(d, entries[0]) then 1 else 0) + CountCopies(d, entries[1..])
  }

  lemma {:induction false} CopiedDestsAppend(d: Decision, a: seq<string>, e: string)
    ensures CopiedDests(d, a + [e]) == CopiedDests(d, a) + (if Copies(d, e) then [ToString(d(e).dest)] else [])
    decreases |a|
  {
    if a != [] {
      assert (a + [e])[1..] == a[1..] + [e];
      CopiedDestsAppend(d, a[1..], e);
    } else {
      assert [e][1..] == [];
    }
  }

  lemma {:induction false} ManifestTextAppend(d: Decision, a: seq<string>, e: string)
    requires forall i :: 0 <= i < |a| ==> !Breaks(d, a[i])
    requires !Breaks(d, e)
    ensures forall i :: 0 <= i < |a + [e]| ==> !Breaks(d, (a + [e])[i])
    ensures ManifestText(d, a + [e]) == ManifestText(d, a) + ManifestLine(d, e)
    decreases |a|
  {
    assert forall i :: 0 <= i < |a + [e]| ==> (a + [e])[i] == if i < |a| then a[i] else e;
    if a != [] {
      assert (a + [e])[1..] == a[1..] + [e];
      ManifestTextAppend(d, a[1..], e);
    } else {
      assert a + [e] == [e] && [e][1..] == [];
    }
  }

  lemma {:induction false} CountCopiesAppend(d: Decision, a: seq<string>, e: string)
    ensures CountCopies(d, a + [e]) == CountCopies(d, a) + (if Copies(d, e) then 1 else 0)
    decreases |a|
  {
    if a != [] {
      assert (a + [e])[1..] == a[1..] + [e];
      CountCopiesAppend(d, a[1..], e);
    } else {
      assert [e][1..] == [];
    }
  }

  lemma {:induction false} CopiedDestsCount(d: Decision, entries: seq<string>)
    ensures |CopiedDests(d, entries)| == CountCopies(d, entries)
    decreases |entries|
  {
    if entries != [] {
      CopiedDestsCount(d, entries[1..]);
    }
  }

  /** A loop that finished met no entry that breaks it. */
  lemma RunNoBreaks(d: Decision, p: Progress, entries: seq<string>)
    requires Run(d, p, entries).Some?
    ensures forall i :: 0 <= i < |entries| ==> !Breaks(d, entries[i])
  {
    RunCrashes(d, p, entries);
  }

  /** When the loop finishes, `copied_files` gained the destinations of the successful
      copies, in order. */
  lemma {:induction false} RunCopied(d: Decision, p: Progress, entries: seq<string>)
    requires Run(d, p, entries).Some?
    ensures Run(d, p, entries).value.copied == p.copied + CopiedDests(d, entries)
    decreases |entries|
  {
    if entries == [] {
      assert p.copied + [] == p.copied;
    } else {
      var init := entries[..|entries| - 1];
      var e := entries[|entries| - 1];
      assert entries == init + [e];
      var q := Run(d, p, init).value;
      RunCopied(d, p, init);
      CopiedDestsAppend(d, init, e);
      StepMeaning(d, q, e);
    }
  }

  /** When the loop finishes, the manifest gained each entry's line, in order. */
  lemma {:induction false} RunManifest(d: Decision, p: Progress, entries: seq<string>)
    requires Run(d, p, entries).Some?
    ensures forall i :: 0 <= i < |entries| ==> !Breaks(d, entries[i])
    ensures Run(d, p, entries).value.manifest == p.manifest + ManifestText(d, entries)
    decreases |entries|
  {
    RunNoBreaks(d, p, entries);
    if entries == [] {
      assert p.manifest + "" == p.manifest;
    } else {
      var init := entries[..|entries| - 1];
      var e := entries[|entries| - 1];
      assert entries == init + [e];
      var q := Run(d, p, init).value;
      RunManifest(d, p, init);
      ManifestTextAppend(d, init, e);
      StepMeaning(d, q, e);
    }
  }

  /** `len(copied_files)` is the number of successful copies. */
  lemma CopiedCount(d: Decision, header: string, entries: seq<string>)
    requires Run(d, Progress(header, []), entries).Some?
    ensures |Run(d, Progress(header, []), entries).value.copied| == CountCopies(d, entries)
  {
    RunCopied(d, Progress(header, []), entries);
    CopiedDestsCount(d, entries);
  }

  /** Running over two blocks of entries is running over the first, then the second. */
  lemma {:induction false} RunSplit(d: Decision, p: Progress, a: seq<string>, b: seq<string>)
    ensures Run(d, p, a + b) == match Run(d, p, a) case None => None case Some(q) => Run(d, q, b)
    decreases |b|
  {
    if b == [] {
      assert a + b == a;
    } else {
      var init := b[..|b| - 1];
      assert (a + b)[..|a + b| - 1] == a + init;
      assert (a + b)[|a + b| - 1] == b[|b| - 1];
      RunSplit(d, p, a, init);
    }
  }

  /** Blank entries are skipped: they add nothing to the manifest or to `copied_files`. */
  lemma BlankSkipped(host: Host, appPath: Path, destDir: Path, p: Progress, a: seq<string>, b: seq<string>)
    ensures Run(Decide(host, appPath, destDir), p, a + [""] + b) == Run(Decide(host, appPath, destDir), p, a + b)
  {
    var d := Decide(host, appPath, destDir);
    assert d("").Skip?;
    RunSplit(d, p, a + [""], b);
    RunSplit(d, p, a, b);
    assert (a + [""])[..|a|] == a;
  }

  /** Each copy lands in the destination directory at the place the source had under the
      application path. */
  lemma RebaseKeepsRelative(appPath: Path, destDir: Path, entry: string)
    requires Dest(appPath, destDir, entry).Some?
    ensures var rel := RelativeTo(FromString(entry), appPath).value;
            && Concat(appPath, rel) == FromString(entry)
            && RelativeTo(Dest(appPath, destDir, entry).value, destDir) == Some(rel)
  {
    var rel := RelativeTo(FromString(entry), appPath).value;
    RelativeToOfConcat(destDir, rel);
  }

  /** Output with no entries yields no copies, an empty manifest path and no manifest. */
  lemma EmptyFindOutput(host: Host, outputDir: Path, appPath: Path, start: DateTime, end: DateTime)
    requires Valid(start) && Valid(end) && appPath in host.directories
    requires host.run(FindCommand(appPath, start, end)).success
    requires Strip(host.run(FindCommand(appPath, start, end)).stdout) == ""
    ensures Collect(host, outputDir, appPath, start, end) == Done(ModifiedResult([], "", None), None)
  {
    FirstEntryBlank(host.run(FindCommand(appPath, start, end)).stdout);
  }

  /** A collection that finished without error lists exactly the successful copies, and
      reports a manifest exactly when the output had entries. */
  lemma CollectResult(host: Host, outputDir: Path, appPath: Path, start: DateTime, end: DateTime)
    requires Valid(start) && Valid(end)
    requires Collect(host, outputDir, appPath, start, end).Done?
    requires Collect(host, outputDir, appPath, start, end).result.error.None?
    ensures Collect(host, outputDir, appPath, start, end).result.copiedFiles
            == CopiedDests(Decide(host, appPath, DestDir(outputDir)), FindEntries(host.run(FindCommand(appPath, start, end)).stdout))
    ensures Collect(host, outputDir, appPath, start, end).result.manifestPath == ""
            <==> Strip(host.run(FindCommand(appPath, start, end)).stdout) == ""
  {
    var out := host.run(FindCommand(appPath, start, end));
    FirstEntryBlank(out.stdout);
    CopyAllResult(host, outputDir, appPath, Header(FormatTime(start, IsoFormat), FormatTime(end, IsoFormat)),
                  Strip(out.stdout));
  }

  lemma CopyAllResult(host: Host, outputDir: Path, appPath: Path, header: string, s: string)
    requires CopyAll(host, outputDir, appPath, header, Split(s, '\n')).Done?
    requires Split(s, '\n')[0] == "" <==> s == ""
    ensures CopyAll(host, outputDir, appPath, header, Split(s, '\n')).result.copiedFiles
            == CopiedDests(Decide(host, appPath, DestDir(outputDir)), Split(s, '\n'))
    ensures CopyAll(host, outputDir, appPath, header, Split(s, '\n')).result.manifestPath == "" <==> s == ""
  {
    var entries := Split(s, '\n');
    var d := Decide(host, appPath, DestDir(outputDir));
    if s == "" {
      assert entries == [""];
      assert CopiedDests(d, entries) == [] by {
        assert entries[1..] == [];
        assert d("").Skip?;
      }
    } else {
      RunCopied(d, Progress(header, []), entries);
      ChildEndsWith(outputDir, "modified_files_manifest.txt", ".txt");
    }
  }
}
