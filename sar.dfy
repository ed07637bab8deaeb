/** The result shape of `collect_sar_data`: one `sar` run per metric over the clock times of
    the window; a failed run, or one that complains it cannot open its data file, is
    recorded as an error, a good one as the path of the file its output was saved to. */
module Sar {
  import opened Text
  import opened Clock
  import opened TimeFormat
  import opened Paths
  import opened Host

  datatype Metric = Metric(key: string, flag: string)

  /** `sar_commands`, in its order. */
  const Metrics: seq<Metric> := [Metric("cpu_usage", "-u"), Metric("memory_usage", "-r"), Metric("load_average", "-q")]

  /** `["sar", flag, "-s", HH:MM:SS of start, "-e", HH:MM:SS of end]` */
  function SarCommand(m: Metric, start: DateTime, end: DateTime): seq<string>
    requires Valid(start) && Valid(end)
  {
    ["sar", m.flag, "-s", FormatTime(start, ClockFormat), "-e", FormatTime(end, ClockFormat)]
  }

  function SarFile(outputDir: Path, key: string): Path {
    Child(outputDir, "sar_" + key + ".txt")
  }

  predicate SarFailed(out: CommandResult) {
    !out.success || Contains(out.stderr, "Cannot open")
  }

  /** The recorded result of one metric. */
  function SarStatus(outputDir: Path, key: string, out: CommandResult): string {
    if SarFailed(out) then "Error: " + out.stderr else ToString(SarFile(outputDir, key))
  }

  function SarResults(host: Host, outputDir: Path, metrics: seq<Metric>, start: DateTime, end: DateTime): map<string, string>
    requires Valid(start) && Valid(end)
    decreases |metrics|
  {
    if metrics == [] then map[]
    else
      var m := metrics[|metrics| - 1];
      SarResults(host, outputDir, metrics[..|metrics| - 1], start, end)
        [m.key := SarStatus(outputDir, m.key, host.run(SarCommand(m, start, end)))]
  }

  function SarWrites(host: Host, outputDir: Path, metrics: seq<Metric>, start: DateTime, end: DateTime): seq<Write>
    requires Valid(start) && Valid(end)
    decreases |metrics|
  {
    if metrics == [] then []
    else
      var m := metrics[|metrics| - 1];
      var out := host.run(SarCommand(m, start, end));
      SarWrites(host, outputDir, metrics[..|metrics| - 1], start, end)
        + (if SarFailed(out) then [] else [Write(SarFile(outputDir, m.key), out.stdout)])
  }

  /** The loop of `collect_sar_data`. */
  method CollectSarData(host: Host, outputDir: Path, metrics: seq<Metric>, start: DateTime, end: DateTime)
    returns (results: map<string, string>, writes: seq<Write>)
    requires Valid(start) && Valid(end)
    ensures results == SarResults(host, outputDir, metrics, start, end)
    ensures writes == SarWrites(host, outputDir, metrics, start, end)
  {
    results := map[];
    writes := [];
    var startText := FormatTime(start, ClockFormat);
    var endText := FormatTime(end, ClockFormat);
    var i := 0;
    while i < |metrics|
      invariant 0 <= i <= |metrics|
      invariant results == SarResults(host, outputDir, metrics[..i], start, end)
      invariant writes == SarWrites(host, outputDir, metrics[..i], start, end)
    {
      var m := metrics[i];
      var out := host.run(["sar", m.flag, "-s", startText, "-e", endText]);
      if !out.success || Contains(out.stderr, "Cannot open") {
        results := results[m.key := "Error: " + out.stderr];
      } else {
        var outputFile := Child(outputDir, "sar_" + m.key + ".txt");
        writes := writes + [Write(outputFile, out.stdout)];
        results := results[m.key := ToString(outputFile)];
      }
      assert metrics[..i + 1][..i] == metrics[..i];
      i := i + 1;
    }
    assert metrics[..i] == metrics;
  }

  /** The saved file's name parses to relative parts, the first starting with `s`. */
  lemma SarFileName(key: string)
    ensures !FromString("sar_" + key + ".txt").absolute
    ensures FromString("sar_" + key + ".txt").parts != []
    ensures FromString("sar_" + key + ".txt").parts[0][0] == 's'
  {
    var name := "sar_" + key + ".txt";
    assert name == "sar_" + (key + ".txt");
    SplitCons("sar_", key + ".txt", '/');
    var pieces := Split(name, '/');
    assert pieces[0][0] == 's' && pieces[0] != "" && pieces[0] != ".";
    assert KeepParts(pieces) == [pieces[0]] + KeepParts(pieces[1..]);
  }

  /** Joining a relative name whose first part starts with `s` onto a directory whose path
      does not start with `Error: ` gives a path that does not either. */
  lemma ChildIsNoError(base: Path, s: string)
    requires !StartsWith(ToString(base), "Error: ")
    requires !FromString(s).absolute && FromString(s).parts != [] && FromString(s).parts[0][0] == 's'
    ensures !StartsWith(ToString(Child(base, s)), "Error: ")
  {
    var e := "Error: ";
    var q := FromString(s);
    var t := ToString(Child(base, s));
    if base.absolute {
      assert t[0] == '/';
    } else if base.parts == [] {
      JoinFirst(q.parts, "/");
      assert t[0] == 's';
    } else {
      var d := ToString(base);
      ChildToString(base, s);
      if StartsWith(t, e) {
        PrefixThroughSeparator(d, Join(q.parts, "/"), e);
      }
    }
  }

  /** A prefix free of `/` of `d + "/" + r` is a prefix of `d`. */
  lemma PrefixThroughSeparator(d: string, r: string, e: string)
    requires '/' !in e && StartsWith(d + "/" + r, e)
    ensures StartsWith(d, e)
  {
    var t := d + "/" + r;
    assert t[|d|] == '/' && '/' !in t[..|e|];
    assert |d| >= |e|;
    assert d[..|e|] == t[..|e|];
  }

  /** A metric's result is an error text exactly when its run failed; otherwise it is the
      path of its `.txt` file. */
  lemma SarStatusMeaning(outputDir: Path, key: string, out: CommandResult)
    requires !StartsWith(ToString(outputDir), "Error: ")
    ensures StartsWith(SarStatus(outputDir, key, out), "Error: ") <==> SarFailed(out)
    ensures !SarFailed(out) ==> EndsWith(SarStatus(outputDir, key, out), ".txt")
  {
    SarFileName(key);
    ChildIsNoError(outputDir, "sar_" + key + ".txt");
    if SarFailed(out) {
      var s := "Error: " + out.stderr;
      assert s[..7] == "Error: ";
    }
    ChildEndsWith(outputDir, "sar_" + key + ".txt", ".txt");
  }

  /** With distinct keys, each metric's result is stored under its own key. */
  lemma {:induction false} SarResultsEntries(host: Host, outputDir: Path, metrics: seq<Metric>, start: DateTime, end: DateTime, k: nat)
    requires Valid(start) && Valid(end)
    requires forall i, j :: 0 <= i < j < |metrics| ==> metrics[i].key != metrics[j].key
    requires k < |metrics|
    ensures metrics[k].key in SarResults(host, outputDir, metrics, start, end)
    ensures SarResults(host, outputDir, metrics, start, end)[metrics[k].key]
            == SarStatus(outputDir, metrics[k].key, host.run(SarCommand(metrics[k], start, end)))
    decreases |metrics|
  {
    if k < |metrics| - 1 {
      SarResultsEntries(host, outputDir, metrics[..|metrics| - 1], start, end, k);
    }
  }

  /** No result is stored under a key that is not a metric's. */
  lemma {:induction false} SarResultsKeys(host: Host, outputDir: Path, metrics: seq<Metric>, start: DateTime, end: DateTime)
    requires Valid(start) && Valid(end)
    ensures forall n :: n in SarResults(host, outputDir, metrics, start, end) ==> exists i :: 0 <= i < |metrics| && metrics[i].key == n
    decreases |metrics|
  {
    if metrics != [] {
      var init := metrics[..|metrics| - 1];
      SarResultsKeys(host, outputDir, init, start, end);
      forall n | n in SarResults(host, outputDir, metrics, start, end)
        ensures exists i :: 0 <= i < |metrics| && metrics[i].key == n
      {
        if n != metrics[|metrics| - 1].key {
          assert n in SarResults(host, outputDir, init, start, end);
          var i :| 0 <= i < |init| && init[i].key == n;
          assert metrics[i].key == n;
        }
      }
    }
  }

  /** The three metrics of `collect_sar_data`: exactly their keys get a result, each from
      its own `sar` run (`-u`, `-r`, `-q`). */
  lemma SarMetricsResults(host: Host, outputDir: Path, start: DateTime, end: DateTime)
    requires Valid(start) && Valid(end)
    ensures SarResults(host, outputDir, Metrics, start, end).Keys == {"cpu_usage", "memory_usage", "load_average"}
    ensures forall i | 0 <= i < |Metrics| ::
              SarResults(host, outputDir, Metrics, start, end)[Metrics[i].key]
              == SarStatus(outputDir, Metrics[i].key, host.run(SarCommand(Metrics[i], start, end)))
    ensures Metrics[0].flag == "-u" && Metrics[1].flag == "-r" && Metrics[2].flag == "-q"
  {
    var ms := Metrics;
    var r := SarResults(host, outputDir, ms, start, end);
    assert ms[0].key == "cpu_usage" && ms[1].key == "memory_usage" && ms[2].key == "load_average";
    SarResultsKeys(host, outputDir, ms, start, end);
    forall i | 0 <= i < |ms|
      ensures ms[i].key in r
      ensures r[ms[i].key] == SarStatus(outputDir, ms[i].key, host.run(SarCommand(ms[i], start, end)))
    {
      SarResultsEntries(host, outputDir, ms, start, end, i);
    }
    forall n | n in r ensures n == "cpu_usage" || n == "memory_usage" || n == "load_average" {
      var i :| 0 <= i < |ms| && ms[i].key == n;
      assert i == 0 || i == 1 || i == 2;
    }
  }
}
