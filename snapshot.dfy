/** `create_output_directory`: the report directory of an outage is named after the
    application and the outage start, `<app>_<YYYYMMDD>_<HHMMSS>`, directly under the base
    directory; when it cannot be created the collector stops. */
module Snapshot {
  import opened Text
  import opened Clock
  import opened TimeFormat
  import opened Paths
  import opened Host

  /** `f"{app_name}_{start_dt.strftime('%Y%m%d_%H%M%S')}"` */
  function DirectoryName(appName: string, start: DateTime): string
    requires Valid(start)
  {
    appName + "_" + FormatTime(start, CompactFormat)
  }

  /** `base_dir / DirectoryName(...)` */
  function ReportDir(baseDir: Path, appName: string, start: DateTime): Path
    requires Valid(start)
  {
    Child(baseDir, DirectoryName(appName, start))
  }

  /** `create_output_directory`: `None` where `mkdir` raises and the script exits. */
  method CreateOutputDirectory(host: Host, baseDir: Path, appName: string, start: DateTime)
    returns (outputDir: Option<Path>)
    requires Valid(start)
    ensures outputDir.Some? <==> host.makeDir(ReportDir(baseDir, appName, start), true)
    ensures outputDir.Some? ==> outputDir.value == ReportDir(baseDir, appName, start)
  {
    var timestamp := FormatTime(start, CompactFormat);
    var dir := Child(baseDir, appName + "_" + timestamp);
    if host.makeDir(dir, true) {
      return Some(dir);
    }
    return None;
  }

  lemma CompactFormatComplete()
    ensures Complete(CompactFormat)
  {
    var f := CompactFormat;
    assert Target(f[0]) == Some(FYear) && Target(f[1]) == Some(FMonth) && Target(f[2]) == Some(FDay);
    assert Target(f[4]) == Some(FHour) && Target(f[5]) == Some(FMinute) && Target(f[6]) == Some(FSecond);
  }

  /** Only digits and the one underscore: no `%b`, no `%z`, no `/`. */
  lemma CompactFormatPlain()
    ensures MonthName !in CompactFormat && Offset !in CompactFormat && Lit('/') !in CompactFormat
  {
  }

  lemma CompactFormatWidth()
    ensures FormatWidth(CompactFormat) == 15
  {
  }

  /** The name is the application name, an underscore and fifteen characters that read back,
      under the same format, as the outage start. */
  lemma DirectoryNameShape(appName: string, start: DateTime)
    requires Valid(start)
    ensures |DirectoryName(appName, start)| == |appName| + 16
    ensures DirectoryName(appName, start)[..|appName| + 1] == appName + "_"
    ensures Parse(DirectoryName(appName, start)[|appName| + 1..], CompactFormat) == Some(Naive(start))
  {
    CompactFormatComplete();
    CompactFormatPlain();
    CompactFormatWidth();
    FormatTimeLength(start, CompactFormat);
    FormatThenParse(start, CompactFormat);
    var stamp := FormatTime(start, CompactFormat);
    assert DirectoryName(appName, start) == (appName + "_") + stamp;
  }

  /** Different outages get different directories: the name determines both the application
      name and the start time. */
  lemma DirectoryNameInjective(app1: string, start1: DateTime, app2: string, start2: DateTime)
    requires Valid(start1) && Valid(start2)
    requires DirectoryName(app1, start1) == DirectoryName(app2, start2)
    ensures app1 == app2 && start1 == start2
  {
    var name := DirectoryName(app1, start1);
    DirectoryNameShape(app1, start1);
    DirectoryNameShape(app2, start2);
    assert app1 + "_" == name[..|app1| + 1] == app2 + "_";
    assert app1 == (app1 + "_")[..|app1|];
  }

  /** The timestamp part holds no `/`, so with an application name free of `/` the name is a
      single path part. */
  lemma DirectoryNameIsPart(appName: string, start: DateTime)
    requires Valid(start) && '/' !in appName
    ensures IsPart(DirectoryName(appName, start))
  {
    var stamp := FormatTime(start, CompactFormat);
    var name := DirectoryName(appName, start);
    assert name == appName + "_" + stamp;
    assert name[|appName|] == '_';
    if '/' in stamp {
      CompactFormatPlain();
      FormatTimeChars(start, CompactFormat, '/');
    }
    forall i | 0 <= i < |name| ensures name[i] != '/' {
      if i < |appName| {
        assert name[i] == appName[i];
      } else if i > |appName| {
        assert name[i] == stamp[i - |appName| - 1];
      }
    }
  }

  /** The report directory sits directly under the base directory and carries the name. */
  lemma ReportDirPlacement(baseDir: Path, appName: string, start: DateTime)
    requires Valid(start) && '/' !in appName
    ensures Name(ReportDir(baseDir, appName, start)) == DirectoryName(appName, start)
    ensures Parent(ReportDir(baseDir, appName, start)) == baseDir
  {
    var name := DirectoryName(appName, start);
    DirectoryNameIsPart(appName, start);
    SplitSeparatorFree(name, '/');
    assert FromString(name) == Path(false, [name]);
    assert ReportDir(baseDir, appName, start).parts == baseDir.parts + [name];
    assert (baseDir.parts + [name])[..|baseDir.parts|] == baseDir.parts;
  }
}
