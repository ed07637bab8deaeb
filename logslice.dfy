/** Time-window log slicing: `parse_log_slice`, the table of log sources in `main`, and the
    loop in `main` that records one status per source. A log source pulls a timestamp text
    out of a line with its pattern and parses it with its format; a line is kept when its
    timestamp lies in the closed window [start, end]. */
module LogSlice {
  import opened Text
  import opened Clock
  import opened TimeFormat
  import opened Paths
  import opened Host

  /** A log source: its pattern, as the text it captures from a line, and its format. */
  datatype LogSource = LogSource(extract: string -> Option<string>, parse: string -> Option<Stamp>)

  // Patterns

  /** The text before the first `]` of `s`, unless a newline comes first (`.*?\]`). */
  function Closing(s: string): (r: Option<string>)
    ensures r.Some? ==> StartsWith(s, r.value + "]") && ']' !in r.value && '\n' !in r.value
    decreases |s|
  {
    if s == [] || s[0] == '\n' then None
    else if s[0] == ']' then Some("")
    else
      match Closing(s[1..])
      case None => None
      case Some(inner) => Some([s[0]] + inner)
  }

  /** `re.search(r'\[(.*?)\]', line).group(1)`: from the first `[` that is closed later on
      the same line, the text up to the nearest `]`. */
  function Bracketed(line: string): (r: Option<string>)
    ensures r.Some? ==> Contains(line, "[" + r.value + "]") && ']' !in r.value && '\n' !in r.value
    decreases |line|
  {
    if line == [] then None
    else if line[0] == '[' && Closing(line[1..]).Some? then
      var inner := Closing(line[1..]).value;
      assert line[..|inner| + 2] == "[" + line[1..][..|inner| + 1];
      Some(inner)
    else Bracketed(line[1..])
  }

  predicate IsAsciiLetter(c: char) {
    'A' <= c <= 'Z' || 'a' <= c <= 'z'
  }

  /** One element of a fixed-width pattern: `\d{n}`, `[A-Za-z]{n}`, or a literal character. */
  datatype Token = Digits(count: nat) | Letters(count: nat) | Char(c: char)

  function TokenWidth(k: Token): nat {
    match k
    case Digits(n) => n
    case Letters(n) => n
    case Char(_) => 1
  }

  predicate TokenMatches(piece: string, k: Token)
    requires |piece| == TokenWidth(k)
  {
    match k
    case Digits(_) => AllDigits(piece)
    case Letters(_) => forall i :: 0 <= i < |piece| ==> IsAsciiLetter(piece[i])
    case Char(c) => piece == [c]
  }

  function PatternWidth(p: seq<Token>): nat {
    if p == [] then 0 else TokenWidth(p[0]) + PatternWidth(p[1..])
  }

  /** `s` is the tokens of `p`, one after the other, and nothing more. */
  predicate Matches(s: string, p: seq<Token>)
    decreases |p|
  {
    if p == [] then s == []
    else
      var w := TokenWidth(p[0]);
      |s| >= w && TokenMatches(s[..w], p[0]) && Matches(s[w..], p[1..])
  }

  lemma {:induction false} MatchesWidth(s: string, p: seq<Token>)
    requires Matches(s, p)
    ensures |s| == PatternWidth(p)
    decreases |p|
  {
    if p != [] {
      MatchesWidth(s[TokenWidth(p[0])..], p[1..]);
    }
  }

  /** `^(\d{4}/\d{2}/\d{2} \d{2}:\d{2}:\d{2})` without its anchor and group. */
  const ErrorPattern: seq<Token> :=
    [Digits(4), Char('/'), Digits(2), Char('/'), Digits(2), Char(' '), Digits(2), Char(':'), Digits(2),
     Char(':'), Digits(2)]
  /** `^\[(\d{2}-[A-Za-z]{3}-\d{4} \d{2}:\d{2}:\d{2})\]` without its anchor and group. */
  const SlowPattern: seq<Token> :=
    [Char('['), Digits(2), Char('-'), Letters(3), Char('-'), Digits(4), Char(' '), Digits(2), Char(':'),
     Digits(2), Char(':'), Digits(2), Char(']')]

  lemma ErrorPatternWidth()
    ensures PatternWidth(ErrorPattern) == 19
  {
  }

  lemma SlowPatternWidth()
    ensures PatternWidth(SlowPattern) == 22
  {
  }

  /** A pattern of width `w` anchored at the start of the line, capturing `[lo, hi)`. */
  function AnchoredCapture(line: string, p: seq<Token>, w: nat, lo: nat, hi: nat): (r: Option<string>)
    requires lo <= hi <= w
    ensures r.Some? <==> w <= |line| && Matches(line[..w], p)
    ensures r.Some? ==> r.value == line[lo..hi]
  {
    if w <= |line| && Matches(line[..w], p) then Some(line[lo..hi]) else None
  }

  // The sources of the table in `main`

  const AccessLog := LogSource(Bracketed, (c: string) => Parse(c, AccessLogFormat))
  const ErrorLog := LogSource((l: string) => AnchoredCapture(l, ErrorPattern, 19, 0, 19),
                              (c: string) => Parse(c, ErrorLogFormat))
  const SlowLog := LogSource((l: string) => AnchoredCapture(l, SlowPattern, 22, 1, 21),
                             (c: string) => Parse(c, SlowLogFormat))

  datatype LogSpec = LogSpec(name: string, path: Path, source: LogSource)

  /** `logs_to_collect`, in its order. */
  function LogTable(logDir: Path, appName: string, phpVersion: string): (table: seq<LogSpec>)
    ensures |table| == 3
    ensures table[0].name == "nginx_access" && table[0].source == AccessLog
    ensures table[1].name == "nginx_error" && table[1].source == ErrorLog
    ensures table[2].name == "php_fpm_slow" && table[2].source == SlowLog
    ensures table[0].path == Child(logDir, appName + "_nginx_access.log")
    ensures table[1].path == Child(logDir, appName + "_nginx_error.log")
    ensures table[2].path == FromString("/var/log/php/php" + phpVersion + "-fpm-slow.log")
    ensures forall i, j :: 0 <= i < j < |table| ==> table[i].name != table[j].name
  {
    [ LogSpec("nginx_access", Child(logDir, appName + "_nginx_access.log"), AccessLog),
      LogSpec("nginx_error", Child(logDir, appName + "_nginx_error.log"), ErrorLog),
      LogSpec("php_fpm_slow", FromString("/var/log/php/php" + phpVersion + "-fpm-slow.log"), SlowLog) ]
  }

  // The filter

  /** The timestamp a line carries under a source: the pattern matched and the text parsed. */
  function Timestamp(src: LogSource, line: string): Option<Stamp> {
    match src.extract(line)
    case None => None
    case Some(c) => src.parse(c)
  }

  /** `start_dt <= t <= end_dt`: both bounds belong to the window. */
  predicate InWindow(t: DateTime, start: DateTime, end: DateTime) {
    AtMost(start, t) && AtMost(t, end)
  }

  /** Whether the slicer keeps a line: it carries a timestamp whose wall-clock time is in
      the window. */
  predicate Keep(src: LogSource, line: string, start: DateTime, end: DateTime) {
    Timestamp(src, line).Some? && InWindow(Timestamp(src, line).value.time, start, end)
  }

  /** The lines kept, in file order. */
  function Kept(src: LogSource, lines: seq<string>, start: DateTime, end: DateTime): seq<string>
    decreases |lines|
  {
    if lines == [] then []
    else
      var last := lines[|lines| - 1];
      Kept(src, lines[..|lines| - 1], start, end) + (if Keep(src, last, start, end) then [last] else [])
  }

  /** The slice: nothing when the file is missing or no line qualifies, else the kept lines
      concatenated. */
  function Slice(file: Option<string>, src: LogSource, start: DateTime, end: DateTime): Option<string> {
    match file
    case None => None
    case Some(text) =>
      var kept := Kept(src, Lines(text), start, end);
      if kept == [] then None else Some(Join(kept, ""))
  }

  /** The slice of a table entry's own file. */
  function SourceSlice(host: Host, spec: LogSpec, start: DateTime, end: DateTime): Option<string> {
    Slice(ReadFile(host, spec.path), spec.source, start, end)
  }

  /** `parse_log_slice`: the file's lines scanned one by one, each kept line appended. */
  method ParseLogSlice(file: Option<string>, src: LogSource, start: DateTime, end: DateTime)
    returns (content: Option<string>)
    ensures content == Slice(file, src, start, end)
  {
    if file.None? {
      return None;
    }
    var lines := Lines(file.value);
    var relevant: seq<string> := [];
    var i := 0;
    while i < |lines|
      invariant 0 <= i <= |lines|
      invariant relevant == Kept(src, lines[..i], start, end)
    {
      var line := lines[i];
      var m := src.extract(line);
      if m.Some? {
        var logTime := src.parse(m.value);
        if logTime.Some? && InWindow(logTime.value.time, start, end) {
          relevant := relevant + [line];
        }
      }
      assert lines[..i + 1][..i] == lines[..i];
      i := i + 1;
    }
    assert lines[..i] == lines;
    if relevant == [] {
      content := None;
    } else {
      content := Some(Join(relevant, ""));
    }
  }

  // What the filter keeps

  /** A line is kept exactly when it is one of the file's lines and it qualifies. */
  lemma {:induction false} KeptMembers(src: LogSource, lines: seq<string>, start: DateTime, end: DateTime, x: string)
    ensures x in Kept(src, lines, start, end) <==> x in lines && Keep(src, x, start, end)
    decreases |lines|
  {
    if lines != [] {
      var init := lines[..|lines| - 1];
      KeptMembers(src, init, start, end, x);
      assert lines == init + [lines[|lines| - 1]];
    }
  }

  /** Filtering is done line by line: a split file filters into the two filtered halves, in
      order, and a single line is kept or dropped on its own. */
  lemma {:induction false} KeptConcat(src: LogSource, a: seq<string>, b: seq<string>, start: DateTime, end: DateTime)
    ensures Kept(src, a + b, start, end) == Kept(src, a, start, end) + Kept(src, b, start, end)
    decreases |b|
  {
    if b == [] {
      assert a + b == a;
    } else {
      var init := b[..|b| - 1];
      assert (a + b)[..|a + b| - 1] == a + init;
      KeptConcat(src, a, init, start, end);
    }
  }

  lemma KeptSingle(src: LogSource, x: string, start: DateTime, end: DateTime)
    ensures Kept(src, [x], start, end) == if Keep(src, x, start, end) then [x] else []
  {
    assert [x][..0] == [];
  }

  /** A line without a timestamp, or outside the window, is skipped and the rest of the file
      is still scanned. */
  lemma SkippedLine(src: LogSource, a: seq<string>, x: string, b: seq<string>, start: DateTime, end: DateTime)
    requires Timestamp(src, x).None? || !InWindow(Timestamp(src, x).value.time, start, end)
    ensures Kept(src, a + [x] + b, start, end) == Kept(src, a, start, end) + Kept(src, b, start, end)
  {
    KeptConcat(src, a + [x], b, start, end);
    KeptConcat(src, a, [x], start, end);
    KeptSingle(src, x, start, end);
  }

  /** Both ends of the window are kept. */
  lemma WindowInclusive(src: LogSource, line: string, start: DateTime, end: DateTime)
    requires Timestamp(src, line).Some? && AtMost(start, end)
    requires Timestamp(src, line).value.time == start || Timestamp(src, line).value.time == end
    ensures Keep(src, line, start, end)
  {
    OrderFacts(start, end, start);
  }

  lemma {:induction false} JoinNonEmpty(xs: seq<string>)
    requires xs != [] && forall i :: 0 <= i < |xs| ==> xs[i] != ""
    ensures Join(xs, "") != ""
    decreases |xs|
  {
    if |xs| > 1 {
      JoinNonEmpty(xs[1..]);
    }
  }

  /** The kept lines of a text are among its lines, none of them empty. */
  lemma KeptNonEmptyLines(src: LogSource, text: string, start: DateTime, end: DateTime)
    ensures forall i :: 0 <= i < |Kept(src, Lines(text), start, end)| ==> Kept(src, Lines(text), start, end)[i] != ""
  {
    var kept := Kept(src, Lines(text), start, end);
    forall i | 0 <= i < |kept| ensures kept[i] != "" {
      KeptMembers(src, Lines(text), start, end, kept[i]);
    }
  }

  /** The slicer never yields an empty string: no qualifying line means `None`. */
  lemma SliceNeverEmpty(file: Option<string>, src: LogSource, start: DateTime, end: DateTime)
    ensures Slice(file, src, start, end) != Some("")
  {
    if file.Some? {
      var kept := Kept(src, Lines(file.value), start, end);
      if kept != [] {
        KeptNonEmptyLines(src, file.value, start, end);
        JoinNonEmpty(kept);
      }
    }
  }

  /** The slice is `None` exactly when the file is missing or none of its lines qualifies;
      otherwise it is the qualifying lines, in file order, with nothing added between them. */
  lemma SliceContents(file: Option<string>, src: LogSource, start: DateTime, end: DateTime)
    ensures Slice(file, src, start, end).None?
            <==> file.None? || forall i :: 0 <= i < |Lines(file.value)| ==> !Keep(src, Lines(file.value)[i], start, end)
    ensures Slice(file, src, start, end).Some?
            ==> Slice(file, src, start, end).value == Join(Kept(src, Lines(file.value), start, end), "")
  {
    if file.Some? {
      var lines := Lines(file.value);
      var kept := Kept(src, lines, start, end);
      if kept == [] {
        forall i | 0 <= i < |lines| ensures !Keep(src, lines[i], start, end) {
          KeptMembers(src, lines, start, end, lines[i]);
        }
      } else {
        KeptMembers(src, lines, start, end, kept[0]);
      }
    }
  }

  /** A slice of the whole file keeps every line of it that qualifies, in order, unchanged:
      when every line qualifies, the slice is the file itself. */
  lemma SliceOfQualifyingFile(text: string, src: LogSource, start: DateTime, end: DateTime)
    requires text != ""
    requires forall i :: 0 <= i < |Lines(text)| ==> Keep(src, Lines(text)[i], start, end)
    ensures Slice(Some(text), src, start, end) == Some(text)
  {
    AllKept(src, Lines(text), start, end);
    LinesJoin(text);
  }

  lemma {:induction false} AllKept(src: LogSource, lines: seq<string>, start: DateTime, end: DateTime)
    requires forall i :: 0 <= i < |lines| ==> Keep(src, lines[i], start, end)
    ensures Kept(src, lines, start, end) == lines
    decreases |lines|
  {
    if lines != [] {
      AllKept(src, lines[..|lines| - 1], start, end);
    }
  }

  // What the patterns and formats accept

  /** The pattern element that what `strftime` prints for a directive matches; a naive
      date-time prints nothing for `%z`. */
  function TokenOf(d: Directive): Token {
    match d
    case Year => Digits(4)
    case MonthName => Letters(3)
    case Offset => Digits(0)
    case Lit(c) => Char(c)
    case _ => Digits(2)
  }

  function Tokens(f: Format): (p: seq<Token>)
    ensures |p| == |f|
  {
    seq(|f|, i requires 0 <= i < |f| => TokenOf(f[i]))
  }

  lemma RenderMatches(t: DateTime, d: Directive)
    requires Valid(t)
    ensures |Render(t, d)| == TokenWidth(TokenOf(d)) && TokenMatches(Render(t, d), TokenOf(d))
  {
    if d == MonthName {
      var m := t.month;
      assert m == 1 || m == 2 || m == 3 || m == 4 || m == 5 || m == 6 || m == 7 || m == 8
          || m == 9 || m == 10 || m == 11 || m == 12;
    }
  }

  /** What `strftime` prints for a format matches the format's pattern. */
  lemma {:induction false} FormatMatches(t: DateTime, f: Format)
    requires Valid(t)
    ensures Matches(FormatTime(t, f), Tokens(f))
    decreases |f|
  {
    if f != [] {
      var r := Render(t, f[0]);
      var rest := FormatTime(t, f[1..]);
      RenderMatches(t, f[0]);
      var w := TokenWidth(TokenOf(f[0]));
      assert (r + rest)[..w] == r && (r + rest)[w..] == rest;
      assert Tokens(f)[0] == TokenOf(f[0]) && Tokens(f)[1..] == Tokens(f[1..]);
      FormatMatches(t, f[1..]);
    }
  }

  lemma {:induction false} MatchesConcat(a: string, p: seq<Token>, b: string, q: seq<Token>)
    requires Matches(a, p) && Matches(b, q)
    ensures Matches(a + b, p + q)
    decreases |p|
  {
    if p == [] {
      assert a + b == b && p + q == q;
    } else {
      var w := TokenWidth(p[0]);
      assert (a + b)[..w] == a[..w] && (a + b)[w..] == a[w..] + b;
      assert (p + q)[0] == p[0] && (p + q)[1..] == p[1..] + q;
      MatchesConcat(a[w..], p[1..], b, q);
    }
  }

  /** A matching text holds only digits, letters and the pattern's own characters. */
  lemma {:induction false} MatchesChars(s: string, p: seq<Token>, x: char)
    requires Matches(s, p) && x in s
    ensures IsDigit(x) || IsAsciiLetter(x) || Char(x) in p
    decreases |p|
  {
    var w := TokenWidth(p[0]);
    assert s == s[..w] + s[w..];
    if x in s[..w] {
      var i :| 0 <= i < w && s[..w][i] == x;
      assert p[0] in p;
    } else {
      MatchesChars(s[w..], p[1..], x);
      assert forall k | k in p[1..] :: k in p;
    }
  }

  lemma ErrorTokens()
    ensures Tokens(ErrorLogFormat) == ErrorPattern
  {
    var f := ErrorLogFormat;
    forall i | 0 <= i < |f| ensures Tokens(f)[i] == ErrorPattern[i] {
      assert i == 0 || i == 1 || i == 2 || i == 3 || i == 4 || i == 5 || i == 6 || i == 7
          || i == 8 || i == 9 || i == 10;
    }
  }

  lemma ErrorFormatComplete()
    ensures Complete(ErrorLogFormat)
  {
    var f := ErrorLogFormat;
    assert Target(f[0]) == Some(FYear) && Target(f[2]) == Some(FMonth) && Target(f[4]) == Some(FDay);
    assert Target(f[6]) == Some(FHour) && Target(f[8]) == Some(FMinute) && Target(f[10]) == Some(FSecond);
  }

  lemma ErrorFormatNoRepeats()
    ensures NoRepeats(ErrorLogFormat)
  {
    var f := ErrorLogFormat;
    forall i, j | 0 <= i < j < |f| && f[i].Lit? == false ensures Target(f[i]) != Target(f[j]) {
      assert i == 0 || i == 2 || i == 4 || i == 6 || i == 8;
      assert j == 1 || j == 2 || j == 3 || j == 4 || j == 5 || j == 6 || j == 7 || j == 8 || j == 9 || j == 10;
    }
  }

  lemma ErrorFormatPlain()
    ensures Offset !in ErrorLogFormat && MonthName !in ErrorLogFormat
  {
  }

  lemma SlowTokens()
    ensures [Char('[')] + Tokens(SlowLogFormat) + [Char(']')] == SlowPattern
  {
    var f := SlowLogFormat;
    var p := [Char('[')] + Tokens(f) + [Char(']')];
    forall i | 0 <= i < |p| ensures p[i] == SlowPattern[i] {
      if 1 <= i <= 11 {
        assert p[i] == Tokens(f)[i - 1] == TokenOf(f[i - 1]);
        assert i == 1 || i == 2 || i == 3 || i == 4 || i == 5 || i == 6 || i == 7
            || i == 8 || i == 9 || i == 10 || i == 11;
      }
    }
  }

  lemma SlowFormatComplete()
    ensures Complete(SlowLogFormat)
  {
    var f := SlowLogFormat;
    assert Target(f[0]) == Some(FDay) && Target(f[2]) == Some(FMonth) && Target(f[4]) == Some(FYear);
    assert Target(f[6]) == Some(FHour) && Target(f[8]) == Some(FMinute) && Target(f[10]) == Some(FSecond);
  }

  lemma SlowFormatPlain()
    ensures Offset !in SlowLogFormat
  {
  }

  /** An error-log line carries the timestamp `t` exactly when it begins with `t` printed
      as `%Y/%m/%d %H:%M:%S`. */
  lemma ErrorLogTimestamp(line: string, t: DateTime)
    ensures Timestamp(ErrorLog, line) == Some(Naive(t))
            <==> Valid(t) && StartsWith(line, FormatTime(t, ErrorLogFormat))
  {
    ErrorTokens();
    ErrorPatternWidth();
    ErrorFormatComplete();
    ErrorFormatNoRepeats();
    ErrorFormatPlain();
    if Timestamp(ErrorLog, line) == Some(Naive(t)) {
      var c := line[..19];
      assert ErrorLog.extract(line) == Some(c);
      ParseThenFormat(c, ErrorLogFormat, t);
    }
    if Valid(t) && StartsWith(line, FormatTime(t, ErrorLogFormat)) {
      FormatMatches(t, ErrorLogFormat);
      var c := FormatTime(t, ErrorLogFormat);
      MatchesWidth(c, ErrorPattern);
      assert line[..19] == c;
      assert ErrorLog.extract(line) == Some(c);
      FormatThenParse(t, ErrorLogFormat);
    }
  }

  /** A matching text between brackets matches the pattern between bracket characters. */
  lemma BracketsMatch(c: string, q: seq<Token>)
    requires Matches(c, q)
    ensures Matches("[" + c + "]", [Char('[')] + q + [Char(']')])
  {
    assert Matches("[", [Char('[')]) by {
      assert "["[..1] == "[" && "["[1..] == [];
    }
    assert Matches("]", [Char(']')]) by {
      assert "]"[..1] == "]" && "]"[1..] == [];
    }
    MatchesConcat("[", [Char('[')], c, q);
    MatchesConcat("[" + c, [Char('[')] + q, "]", [Char(']')]);
  }

  lemma SlowLineMatches(t: DateTime, c: string)
    requires Valid(t) && c == FormatTime(t, SlowLogFormat)
    ensures |c| == 20 && Matches("[" + c + "]", SlowPattern)
  {
    FormatMatches(t, SlowLogFormat);
    BracketsMatch(c, Tokens(SlowLogFormat));
    SlowTokens();
    SlowPatternWidth();
    MatchesWidth("[" + c + "]", SlowPattern);
  }

  /** A line that starts with a text matching the pattern is captured by it. */
  lemma AnchoredCaptureOf(line: string, b: string, p: seq<Token>, lo: nat, hi: nat)
    requires lo <= hi <= |b|
    requires StartsWith(line, b) && Matches(b, p)
    ensures AnchoredCapture(line, p, |b|, lo, hi) == Some(line[lo..hi])
  {
  }

  /** The bracketed form: a line that starts with `[`, a text and `]`, matching the
      pattern, is captured between the brackets. */
  lemma InnerCaptureOf(line: string, c: string, p: seq<Token>)
    requires StartsWith(line, "[" + c + "]") && Matches("[" + c + "]", p)
    ensures AnchoredCapture(line, p, |c| + 2, 1, |c| + 1) == Some(c)
  {
    var b := "[" + c + "]";
    AnchoredCaptureOf(line, b, p, 1, |c| + 1);
    assert line[1..|c| + 1] == b[1..|c| + 1] == c;
  }

  /** A slow-log line that begins with `[`, `t` printed as `%d-%b-%Y %H:%M:%S`, and `]`
      carries the timestamp `t`. */

  lemma SlowLogTimestamp(line: string, t: DateTime)
    requires Valid(t) && StartsWith(line, "[" + FormatTime(t, SlowLogFormat) + "]")
    ensures Timestamp(SlowLog, line) == Some(Naive(t))
  {
    var c := FormatTime(t, SlowLogFormat);
    SlowLineMatches(t, c);
    InnerCaptureOf(line, c, SlowPattern);
    SlowFormatComplete();
    SlowFormatPlain();
    FormatThenParse(t, SlowLogFormat);
  }

  // The loop in `main`

  const NoEntries := "No relevant entries or file missing."

  /** `report_dir / f"{name}.slice.log"` */
  function SliceFile(reportDir: Path, name: string): Path {
    Child(reportDir, name + ".slice.log")
  }

  /** The status `main` records for a source, given the slice it got. */
  function LogStatus(reportDir: Path, name: string, content: Option<string>): string {
    if content.Some? && content.value != "" then ToString(SliceFile(reportDir, name)) else NoEntries
  }

  /** The statuses recorded for the table, one key per source name. */
  function LogResults(host: Host, table: seq<LogSpec>, reportDir: Path, start: DateTime, end: DateTime): map<string, string>
    decreases |table|
  {
    if table == [] then map[]
    else
      var spec := table[|table| - 1];
      var content := SourceSlice(host, spec, start, end);
      LogResults(host, table[..|table| - 1], reportDir, start, end)[spec.name := LogStatus(reportDir, spec.name, content)]
  }

  /** The slice files written, in table order. */
  function SliceWrites(host: Host, table: seq<LogSpec>, reportDir: Path, start: DateTime, end: DateTime): seq<Write>
    decreases |table|
  {
    if table == [] then []
    else
      var spec := table[|table| - 1];
      var content := SourceSlice(host, spec, start, end);
      SliceWrites(host, table[..|table| - 1], reportDir, start, end)
        + (if content.Some? && content.value != "" then [Write(SliceFile(reportDir, spec.name), content.value)] else [])
  }

  /** The loop over `logs_to_collect`: slice each source, write a non-empty slice to its file
      and record where, or record that there was nothing. */
  method CollectLogs(host: Host, table: seq<LogSpec>, reportDir: Path, start: DateTime, end: DateTime)
    returns (logs: map<string, string>, writes: seq<Write>)
    ensures logs == LogResults(host, table, reportDir, start, end)
    ensures writes == SliceWrites(host, table, reportDir, start, end)
  {
    logs := map[];
    writes := [];
    var i := 0;
    while i < |table|
      invariant 0 <= i <= |table|
      invariant logs == LogResults(host, table[..i], reportDir, start, end)
      invariant writes == SliceWrites(host, table[..i], reportDir, start, end)
    {
      var spec := table[i];
      var content := ParseLogSlice(ReadFile(host, spec.path), spec.source, start, end);
      assert content == SourceSlice(host, spec, start, end);
      if content.Some? && content.value != "" {
        var outputFile := SliceFile(reportDir, spec.name);
        writes := writes + [Write(outputFile, content.value)];
        logs := logs[spec.name := ToString(outputFile)];
      } else {
        logs := logs[spec.name := NoEntries];
      }
      assert table[..i + 1][..i] == table[..i];
      i := i + 1;
    }
    assert table[..i] == table;
  }

  /** A source is recorded as having no entries exactly when its slice is `None`; otherwise
      its status is the path of its slice file, which ends in `.slice.log`. */
  lemma LogStatusMeaning(reportDir: Path, name: string, file: Option<string>, src: LogSource, start: DateTime, end: DateTime)
    ensures LogStatus(reportDir, name, Slice(file, src, start, end)) == NoEntries
            <==> Slice(file, src, start, end).None?
    ensures Slice(file, src, start, end).Some?
            ==> LogStatus(reportDir, name, Slice(file, src, start, end)) == ToString(SliceFile(reportDir, name))
                && EndsWith(ToString(SliceFile(reportDir, name)), ".slice.log")
  {
    SliceNeverEmpty(file, src, start, end);
    SliceFileSuffix(reportDir, name);
    NoEntriesIsNotSlice();
  }

  lemma SliceFileSuffix(reportDir: Path, name: string)
    ensures EndsWith(ToString(SliceFile(reportDir, name)), ".slice.log")
  {
    var x := ".slice.log";
    assert (name + x)[|name|..] == x;
    ChildEndsWith(reportDir, name + x, x);
  }

  lemma NoEntriesIsNotSlice()
    ensures !EndsWith(NoEntries, ".slice.log")
  {
    assert NoEntries[|NoEntries| - 1] == '.';
  }

  /** Every source of the table gets exactly one status, under its own name. */
  lemma {:induction false} LogResultsEntries(host: Host, table: seq<LogSpec>, reportDir: Path, start: DateTime, end: DateTime, k: nat)
    requires forall i, j :: 0 <= i < j < |table| ==> table[i].name != table[j].name
    requires k < |table|
    ensures table[k].name in LogResults(host, table, reportDir, start, end)
    ensures LogResults(host, table, reportDir, start, end)[table[k].name]
            == LogStatus(reportDir, table[k].name, SourceSlice(host, table[k], start, end))
    decreases |table|
  {
    if k < |table| - 1 {
      LogResultsEntries(host, table[..|table| - 1], reportDir, start, end, k);
    }
  }

  /** No status is recorded under a name that is not in the table. */
  lemma {:induction false} LogResultsKeys(host: Host, table: seq<LogSpec>, reportDir: Path, start: DateTime, end: DateTime)
    ensures forall n :: n in LogResults(host, table, reportDir, start, end) ==> exists i :: 0 <= i < |table| && table[i].name == n
    decreases |table|
  {
    if table != [] {
      var init := table[..|table| - 1];
      LogResultsKeys(host, init, reportDir, start, end);
      forall n | n in LogResults(host, table, reportDir, start, end)
        ensures exists i :: 0 <= i < |table| && table[i].name == n
      {
        if n != table[|table| - 1].name {
          assert n in LogResults(host, init, reportDir, start, end);
          var i :| 0 <= i < |init| && init[i].name == n;
          assert table[i].name == n;
        }
      }
    }
  }

  /** With distinct source names, the statuses are keyed by exactly those names, each the
      status of its own source's slice. */
  lemma ResultsOfTable(host: Host, table: seq<LogSpec>, reportDir: Path, start: DateTime, end: DateTime)
    requires forall i, j :: 0 <= i < j < |table| ==> table[i].name != table[j].name
    ensures forall n :: n in LogResults(host, table, reportDir, start, end) <==> exists i :: 0 <= i < |table| && table[i].name == n
    ensures forall i | 0 <= i < |table| ::
              table[i].name in LogResults(host, table, reportDir, start, end)
              && LogResults(host, table, reportDir, start, end)[table[i].name]
                 == LogStatus(reportDir, table[i].name, SourceSlice(host, table[i], start, end))
  {
    LogResultsKeys(host, table, reportDir, start, end);
    forall i | 0 <= i < |table|
      ensures table[i].name in LogResults(host, table, reportDir, start, end)
      ensures LogResults(host, table, reportDir, start, end)[table[i].name]
              == LogStatus(reportDir, table[i].name, SourceSlice(host, table[i], start, end))
    {
      LogResultsEntries(host, table, reportDir, start, end, i);
    }
  }

  /** The table of `main` through the loop: exactly the three source names get a status,
      each from its own file's slice. As written, the access log's status is never a slice
      file, and the other two statuses are the intended ones. */
  lemma LogTableStatuses(host: Host, logDir: Path, appName: string, phpVersion: string,
                         reportDir: Path, start: DateTime, end: DateTime)
    ensures LogResults(host, LogTable(logDir, appName, phpVersion), reportDir, start, end).Keys
            == {"nginx_access", "nginx_error", "php_fpm_slow"}
    ensures forall i | 0 <= i < |LogTable(logDir, appName, phpVersion)| ::
              var spec := LogTable(logDir, appName, phpVersion)[i];
              LogResults(host, LogTable(logDir, appName, phpVersion), reportDir, start, end)[spec.name]
              == LogStatus(reportDir, spec.name, SourceSlice(host, spec, start, end))
    ensures var spec := LogTable(logDir, appName, phpVersion)[0];
            LogStatus(reportDir, spec.name, SliceAsWritten(ReadFile(host, spec.path), spec.source, start, end)) == NoEntries
    ensures forall i | 1 <= i < |LogTable(logDir, appName, phpVersion)| ::
              var spec := LogTable(logDir, appName, phpVersion)[i];
              SliceAsWritten(ReadFile(host, spec.path), spec.source, start, end) == SourceSlice(host, spec, start, end)
  {
    var table := LogTable(logDir, appName, phpVersion);
    ResultsOfTable(host, table, reportDir, start, end);
    TableKeys(host, table, reportDir, start, end);
    TableAsWritten(host, table, start, end);
  }

  lemma TableKeys(host: Host, table: seq<LogSpec>, reportDir: Path, start: DateTime, end: DateTime)
    requires |table| == 3
    requires table[0].name == "nginx_access" && table[1].name == "nginx_error" && table[2].name == "php_fpm_slow"
    requires forall n :: n in LogResults(host, table, reportDir, start, end) <==> exists i :: 0 <= i < |table| && table[i].name == n
    ensures LogResults(host, table, reportDir, start, end).Keys == {"nginx_access", "nginx_error", "php_fpm_slow"}
  {
    var r := LogResults(host, table, reportDir, start, end);
    assert table[0].name in r && table[1].name in r && table[2].name in r;
    forall n | n in r ensures n == "nginx_access" || n == "nginx_error" || n == "php_fpm_slow" {
      var i :| 0 <= i < |table| && table[i].name == n;
      assert i == 0 || i == 1 || i == 2;
    }
  }

  lemma TableAsWritten(host: Host, table: seq<LogSpec>, start: DateTime, end: DateTime)
    requires |table| == 3
    requires table[0].source == AccessLog && table[1].source == ErrorLog && table[2].source == SlowLog
    ensures SliceAsWritten(ReadFile(host, table[0].path), table[0].source, start, end).None?
    ensures forall i | 1 <= i < |table| ::
              SliceAsWritten(ReadFile(host, table[i].path), table[i].source, start, end) == SourceSlice(host, table[i], start, end)
  {
    AccessLogNeverSliced(ReadFile(host, table[0].path), start, end);
    NaiveSourcesAsIntended(ReadFile(host, table[1].path), start, end);
    NaiveSourcesAsIntended(ReadFile(host, table[2].path), start, end);
    forall i | 1 <= i < |table|
      ensures SliceAsWritten(ReadFile(host, table[i].path), table[i].source, start, end) == SourceSlice(host, table[i], start, end)
    {
      assert i == 1 || i == 2;
    }
  }

  /** Every file the loop writes is the `<name>.slice.log` of a source, holding its slice. */
  lemma {:induction false} SliceWritesSound(host: Host, table: seq<LogSpec>, reportDir: Path, start: DateTime, end: DateTime)
    ensures forall w | w in SliceWrites(host, table, reportDir, start, end) ::
              exists i :: 0 <= i < |table| && w.path == SliceFile(reportDir, table[i].name)
                          && SourceSlice(host, table[i], start, end) == Some(w.content)
    decreases |table|
  {
    if table != [] {
      var init := table[..|table| - 1];
      var spec := table[|table| - 1];
      SliceWritesSound(host, init, reportDir, start, end);
      var content := SourceSlice(host, spec, start, end);
      var last := if content.Some? && content.value != "" then [Write(SliceFile(reportDir, spec.name), content.value)] else [];
      var ws := SliceWrites(host, init, reportDir, start, end);
      assert SliceWrites(host, table, reportDir, start, end) == ws + last;
      forall w: Write | w in ws + last
        ensures exists i :: 0 <= i < |table| && w.path == SliceFile(reportDir, table[i].name)
                            && SourceSlice(host, table[i], start, end) == Some(w.content)
      {
        if w in ws {
          var i :| 0 <= i < |init| && w.path == SliceFile(reportDir, init[i].name)
                   && SourceSlice(host, init[i], start, end) == Some(w.content);
          assert table[i] == init[i];
        } else {
          assert table[|table| - 1] == spec;
        }
      }
    }
  }

  /** Every source with a slice gets its `<name>.slice.log` written with that slice. */
  lemma {:induction false} SliceWritesComplete(host: Host, table: seq<LogSpec>, reportDir: Path, start: DateTime, end: DateTime, k: nat)
    requires k < |table| && SourceSlice(host, table[k], start, end).Some?
    ensures Write(SliceFile(reportDir, table[k].name), SourceSlice(host, table[k], start, end).value)
            in SliceWrites(host, table, reportDir, start, end)
    decreases |table|
  {
    var init := table[..|table| - 1];
    var spec := table[|table| - 1];
    var content := SourceSlice(host, spec, start, end);
    var ws := SliceWrites(host, init, reportDir, start, end);
    if k < |init| {
      assert table[k] == init[k];
      SliceWritesComplete(host, init, reportDir, start, end, k);
      var w := Write(SliceFile(reportDir, table[k].name), SourceSlice(host, table[k], start, end).value);
      assert w in ws;
      assert SliceWrites(host, table, reportDir, start, end) == ws + (if content.Some? && content.value != "" then [Write(SliceFile(reportDir, spec.name), content.value)] else []);
    } else {
      SliceNeverEmpty(ReadFile(host, spec.path), spec.source, start, end);
      var w := Write(SliceFile(reportDir, spec.name), content.value);
      assert SliceWrites(host, table, reportDir, start, end) == ws + [w];
    }
  }

  // Finding: the access log's `%z`

  /** The loop of `parse_log_slice` as written: a timestamp parsed with `%z` is aware, and
      comparing it with the naive window bounds raises `TypeError`, which the inner
      `except ValueError` does not catch; the outer handler then returns `None` for the
      whole file. `None` here stands for that abort. */
  function ScanAsWritten(src: LogSource, lines: seq<string>, start: DateTime, end: DateTime): (r: Option<seq<string>>)
    ensures r.Some? ==> r.value == Kept(src, lines, start, end)
    decreases |lines|
  {
    if lines == [] then Some([])
    else
      match ScanAsWritten(src, lines[..|lines| - 1], start, end)
      case None => None
      case Some(kept) =>
        var line := lines[|lines| - 1];
        match Timestamp(src, line)
        case None => Some(kept)
        case Some(Naive(t)) => Some(if InWindow(t, start, end) then kept + [line] else kept)
        case Some(Aware(_, _)) => None
  }

  /** A line whose timestamp is aware: the one comparison that raises `TypeError`. */
  predicate AwareStamp(src: LogSource, line: string) {
    Timestamp(src, line).Some? && Timestamp(src, line).value.Aware?
  }

  /** The scan as written aborts exactly when some line carries an aware timestamp. */
  lemma {:induction false} ScanAbortsIffAware(src: LogSource, lines: seq<string>, start: DateTime, end: DateTime)
    ensures ScanAsWritten(src, lines, start, end).None?
            <==> exists i :: 0 <= i < |lines| && AwareStamp(src, lines[i])
    decreases |lines|
  {
    if lines != [] {
      var init := lines[..|lines| - 1];
      var line := lines[|lines| - 1];
      ScanAbortsIffAware(src, init, start, end);
      assert forall i :: 0 <= i < |init| ==> init[i] == lines[i];
      if ScanAsWritten(src, init, start, end).None? {
        var i :| 0 <= i < |init| && AwareStamp(src, init[i]);
        assert AwareStamp(src, lines[i]);
      } else if AwareStamp(src, line) {
        assert AwareStamp(src, lines[|lines| - 1]);
      } else {
        assert ScanAsWritten(src, lines, start, end).Some?;
        forall i | 0 <= i < |lines| ensures !AwareStamp(src, lines[i]) {
          if i < |init| { assert lines[i] == init[i]; }
        }
      }
    }
  }

  /** `parse_log_slice` as written: when it does not abort it returns the intended slice. */
  function SliceAsWritten(file: Option<string>, src: LogSource, start: DateTime, end: DateTime): (r: Option<string>)
    ensures r.Some? ==> r == Slice(file, src, start, end)
  {
    match file
    case None => None
    case Some(text) =>
      match ScanAsWritten(src, Lines(text), start, end)
      case None => None
      case Some(kept) => if kept == [] then None else Some(Join(kept, ""))
  }

  /** Sources whose parser never yields an aware timestamp, and ones that yield only aware
      ones. */
  ghost predicate NaiveOnly(src: LogSource) {
    forall c :: src.parse(c).None? || src.parse(c).value.Naive?
  }

  ghost predicate AwareOnly(src: LogSource) {
    forall c :: src.parse(c).None? || src.parse(c).value.Aware?
  }

  lemma {:induction false} ScanAsWrittenNaive(src: LogSource, lines: seq<string>, start: DateTime, end: DateTime)
    requires NaiveOnly(src)
    ensures ScanAsWritten(src, lines, start, end) == Some(Kept(src, lines, start, end))
    decreases |lines|
  {
    if lines != [] {
      var init := lines[..|lines| - 1];
      ScanAsWrittenNaive(src, init, start, end);
      var line := lines[|lines| - 1];
      var kept := Kept(src, init, start, end);
      assert Kept(src, lines, start, end) == kept + (if Keep(src, line, start, end) then [line] else []);
      if src.extract(line).Some? {
        var st := src.parse(src.extract(line).value);
        assert st.None? || st.value.Naive?;
        assert Timestamp(src, line) == st;
        if st.Some? {
          var t := st.value.time;
          assert Timestamp(src, line) == Some(Naive(t));
          assert ScanAsWritten(src, lines, start, end)
                 == Some(if InWindow(t, start, end) then kept + [line] else kept);
          assert kept + [] == kept;
        }
      }
    }
  }

  /** For sources without `%z` the code as written slices as intended. */
  lemma AsWrittenAgreesWhenNaive(file: Option<string>, src: LogSource, start: DateTime, end: DateTime)
    requires NaiveOnly(src)
    ensures SliceAsWritten(file, src, start, end) == Slice(file, src, start, end)
  {
    if file.Some? {
      ScanAsWrittenNaive(src, Lines(file.value), start, end);
    }
  }

  lemma {:induction false} ScanAsWrittenAware(src: LogSource, lines: seq<string>, start: DateTime, end: DateTime)
    requires AwareOnly(src)
    ensures ScanAsWritten(src, lines, start, end) == Some([]) || ScanAsWritten(src, lines, start, end).None?
    decreases |lines|
  {
    if lines != [] {
      ScanAsWrittenAware(src, lines[..|lines| - 1], start, end);
      var line := lines[|lines| - 1];
      if src.extract(line).Some? {
        assert src.parse(src.extract(line).value).None? || src.parse(src.extract(line).value).value.Aware?;
      }
    }
  }

  lemma SourceKinds()
    ensures AwareOnly(AccessLog) && NaiveOnly(ErrorLog) && NaiveOnly(SlowLog)
  {
    assert Offset in AccessLogFormat by { assert AccessLogFormat[12] == Offset; }
    forall c: string ensures AccessLog.parse(c).None? || AccessLog.parse(c).value.Aware? {
      ParseWithOffsetIsAware(c, AccessLogFormat);
    }
    forall c: string ensures ErrorLog.parse(c).None? || ErrorLog.parse(c).value.Naive? {
      ParseWithoutOffsetIsNaive(c, ErrorLogFormat);
    }
    forall c: string ensures SlowLog.parse(c).None? || SlowLog.parse(c).value.Naive? {
      ParseWithoutOffsetIsNaive(c, SlowLogFormat);
    }
  }

  /** As written, the access log never yields a slice, whatever the file holds. */
  lemma AccessLogNeverSliced(file: Option<string>, start: DateTime, end: DateTime)
    ensures SliceAsWritten(file, AccessLog, start, end).None?
  {
    SourceKinds();
    if file.Some? {
      ScanAsWrittenAware(AccessLog, Lines(file.value), start, end);
    }
  }

  /** The error and slow logs are sliced as intended by the code as written. */
  lemma NaiveSourcesAsIntended(file: Option<string>, start: DateTime, end: DateTime)
    ensures SliceAsWritten(file, ErrorLog, start, end) == Slice(file, ErrorLog, start, end)
    ensures SliceAsWritten(file, SlowLog, start, end) == Slice(file, SlowLog, start, end)
  {
    SourceKinds();
    AsWrittenAgreesWhenNaive(file, ErrorLog, start, end);
    AsWrittenAgreesWhenNaive(file, SlowLog, start, end);
  }

  // The counterexample: an access-log line in the window

  /** `%d/%b/%Y:%H:%M:%S `: the access-log format up to its `%z`. */
  const AccessClockFormat: Format :=
    [Day, Lit('/'), MonthName, Lit('/'), Year, Lit(':'), Hour, Lit(':'), Minute, Lit(':'), Second, Lit(' ')]

  lemma AccessFormatSplit()
    ensures AccessLogFormat == AccessClockFormat + [Offset]
    ensures Offset !in AccessClockFormat
  {
  }

  lemma AccessClockComplete()
    ensures Complete(AccessClockFormat)
  {
    var f := AccessClockFormat;
    assert Target(f[0]) == Some(FDay) && Target(f[2]) == Some(FMonth) && Target(f[4]) == Some(FYear);
    assert Target(f[6]) == Some(FHour) && Target(f[8]) == Some(FMinute) && Target(f[10]) == Some(FSecond);
  }

  /** Neither `]` nor a newline is a pattern character of the access clock format. */
  lemma AccessClockAvoids()
    ensures Char(']') !in Tokens(AccessClockFormat) && Char('\n') !in Tokens(AccessClockFormat)
  {
    var f := AccessClockFormat;
    forall i | 0 <= i < |f| ensures Tokens(f)[i] != Char(']') && Tokens(f)[i] != Char('\n') {
      assert i == 0 || i == 1 || i == 2 || i == 3 || i == 4 || i == 5 || i == 6 || i == 7
          || i == 8 || i == 9 || i == 10 || i == 11;
    }
  }

  /** A UTC offset as nginx prints it with `%z`: a sign, hours and minutes. */
  datatype UtcOffset = UtcOffset(sign: char, hours: nat, minutes: nat)

  predicate ValidOffset(z: UtcOffset) {
    (z.sign == '+' || z.sign == '-') && z.hours < 24 && z.minutes < 60
  }

  /** `+HHMM` or `-HHMM`. */
  function OffsetText(z: UtcOffset): (s: string)
    requires ValidOffset(z)
    ensures |s| == 5 && s[0] == z.sign && AllDigits(s[1..])
  {
    [z.sign] + Pad(z.hours, 2) + Pad(z.minutes, 2)
  }

  /** The offset in minutes east of UTC. */
  function OffsetMinutes(z: UtcOffset): int {
    (if z.sign == '-' then -1 else 1) * (z.hours * 60 + z.minutes)
  }

  lemma ReadOffset(z: UtcOffset, fs: map<Field, int>)
    requires ValidOffset(z)
    ensures Scan(OffsetText(z), [Offset], fs) == Some(fs[FOffset := OffsetMinutes(z)])
  {
    var s := OffsetText(z);
    var hh := Pad(z.hours, 2);
    var mm := Pad(z.minutes, 2);
    assert s[..5] == s && s[5..] == "" && [Offset][1..] == [];
    assert s[1..3] == hh && s[3..] == mm;
    ValueOfPad(z.hours, 2);
    ValueOfPad(z.minutes, 2);
  }

  /** An access-log timestamp parses to an aware timestamp with the printed wall-clock time
      and the printed offset. */
  lemma AccessStampParses(t: DateTime, z: UtcOffset)
    requires Valid(t) && ValidOffset(z)
    ensures Parse(FormatTime(t, AccessClockFormat) + OffsetText(z), AccessLogFormat) == Some(Aware(t, OffsetMinutes(z)))
  {
    var f := AccessClockFormat;
    AccessFormatSplit();
    AccessClockComplete();
    ScanFormattedPrefix(t, f, [Offset], OffsetText(z), map[]);
    var r := Record(t, f, map[]);
    ReadOffset(z, r);
    BuildRecord(t, f, map[]);
    BuildIgnoresOffset(r, OffsetMinutes(z));
  }

  lemma {:induction false} ClosingOf(c: string, post: string)
    requires ']' !in c && '\n' !in c
    ensures Closing(c + "]" + post) == Some(c)
    decreases |c|
  {
    var s := c + "]" + post;
    if c == [] {
      assert s[0] == ']';
    } else {
      assert s[0] == c[0] && s[1..] == c[1..] + "]" + post;
      ClosingOf(c[1..], post);
      assert [c[0]] + c[1..] == c;
    }
  }

  lemma {:induction false} BracketedOf(pre: string, c: string, post: string)
    requires '[' !in pre && ']' !in c && '\n' !in c
    ensures Bracketed(pre + "[" + c + "]" + post) == Some(c)
    decreases |pre|
  {
    var line := pre + "[" + c + "]" + post;
    if pre == [] {
      assert line[0] == '[' && line[1..] == c + "]" + post;
      ClosingOf(c, post);
    } else {
      assert line[0] == pre[0] && line[1..] == pre[1..] + "[" + c + "]" + post;
      BracketedOf(pre[1..], c, post);
    }
  }

  /** `[dd/Mon/yyyy:HH:MM:SS +HHMM]` without its brackets. */
  function AccessStamp(t: DateTime, z: UtcOffset): string
    requires Valid(t) && ValidOffset(z)
  {
    FormatTime(t, AccessClockFormat) + OffsetText(z)
  }

  /** An access-log entry with the stamp of `t` at offset `z` in brackets between `pre` and
      `post`. */
  function AccessEntry(pre: string, t: DateTime, z: UtcOffset, post: string): string
    requires Valid(t) && ValidOffset(z)
  {
    pre + "[" + AccessStamp(t, z) + "]" + post + "\n"
  }

  /** Neither `]` nor a newline occurs in a printed offset. */
  lemma OffsetPlain(z: UtcOffset)
    requires ValidOffset(z)
    ensures ']' !in OffsetText(z) && '\n' !in OffsetText(z)
  {
    var s := OffsetText(z);
    forall i | 0 <= i < |s| ensures s[i] != ']' && s[i] != '\n' {
      if i > 0 {
        assert s[i] == s[1..][i - 1];
      }
    }
  }

  lemma AccessStampPlain(t: DateTime, z: UtcOffset)
    requires Valid(t) && ValidOffset(z)
    ensures ']' !in AccessStamp(t, z) && '\n' !in AccessStamp(t, z)
  {
    OffsetPlain(z);
    var clock := FormatTime(t, AccessClockFormat);
    FormatMatches(t, AccessClockFormat);
    AccessClockAvoids();
    if ']' in clock {
      MatchesChars(clock, Tokens(AccessClockFormat), ']');
    }
    if '\n' in clock {
      MatchesChars(clock, Tokens(AccessClockFormat), '\n');
    }
    assert AccessStamp(t, z) == clock + OffsetText(z);
  }

  /** An access-log entry is a single line, and it carries the aware stamp of `t` at `z`. */
  lemma AccessEntryStamp(pre: string, t: DateTime, z: UtcOffset, post: string)
    requires '[' !in pre && '\n' !in pre && '\n' !in post && Valid(t) && ValidOffset(z)
    ensures Lines(AccessEntry(pre, t, z, post)) == [AccessEntry(pre, t, z, post)]
    ensures Timestamp(AccessLog, AccessEntry(pre, t, z, post)) == Some(Aware(t, OffsetMinutes(z)))
  {
    var c := AccessStamp(t, z);
    var line := AccessEntry(pre, t, z, post);
    AccessStampPlain(t, z);
    assert line == pre + "[" + c + "]" + (post + "\n");
    BracketedOf(pre, c, post + "\n");
    AccessStampParses(t, z);
    assert line[..|line| - 1] == pre + "[" + c + "]" + post;
    LinesSingle(line);
  }

  /** Every access-log entry `pre [dd/Mon/yyyy:HH:MM:SS ±HHMM] post` with no `[` before its
      stamp and a wall-clock time in the window is kept by the intended slicer, and lost by
      the code as written, whatever its UTC offset. */
  lemma AccessLogLineLost(pre: string, t: DateTime, z: UtcOffset, post: string, start: DateTime, end: DateTime)
    requires '[' !in pre && '\n' !in pre && '\n' !in post
    requires Valid(t) && ValidOffset(z) && InWindow(t, start, end)
    ensures Slice(Some(AccessEntry(pre, t, z, post)), AccessLog, start, end) == Some(AccessEntry(pre, t, z, post))
    ensures SliceAsWritten(Some(AccessEntry(pre, t, z, post)), AccessLog, start, end).None?
  {
    var line := AccessEntry(pre, t, z, post);
    AccessEntryStamp(pre, t, z, post);
    SliceOfQualifyingFile(line, AccessLog, start, end);
    AccessLogNeverSliced(Some(line), start, end);
  }

  /** The entry `203.0.113.9 - - [14/Oct/2026:10:05:00 +0000] "GET / HTTP/1.1" 502 0`, in the
      window from 10:00:00 to 11:00:00 that day. */
  lemma AccessLogExample()
    ensures Valid(DateTime(2026, 10, 14, 10, 5, 0))
    ensures var line := AccessEntry("203.0.113.9 - - ", DateTime(2026, 10, 14, 10, 5, 0), UtcOffset('+', 0, 0), " \"GET / HTTP/1.1\" 502 0");
            && Slice(Some(line), AccessLog, DateTime(2026, 10, 14, 10, 0, 0), DateTime(2026, 10, 14, 11, 0, 0)) == Some(line)
            && SliceAsWritten(Some(line), AccessLog, DateTime(2026, 10, 14, 10, 0, 0), DateTime(2026, 10, 14, 11, 0, 0)).None?
  {
    var pre := "203.0.113.9 - - ";
    var post := " \"GET / HTTP/1.1\" 502 0";
    var t := DateTime(2026, 10, 14, 10, 5, 0);
    assert '[' !in pre && '\n' !in pre && '\n' !in post;
    assert Valid(t) && InWindow(t, DateTime(2026, 10, 14, 10, 0, 0), DateTime(2026, 10, 14, 11, 0, 0));
    assert ValidOffset(UtcOffset('+', 0, 0));
    AccessLogLineLost(pre, t, UtcOffset('+', 0, 0), post, DateTime(2026, 10, 14, 10, 0, 0), DateTime(2026, 10, 14, 11, 0, 0));
  }
}
