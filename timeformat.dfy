/** The fixed-width part of `strftime`/`strptime` that the snapshot collector uses: a format
    is a sequence of directives (`%Y`, `%m`, `%b`, `%d`, `%H`, `%M`, `%S`, `%z`) and literal
    characters. Formatting pads every number to its width; parsing reads exactly that width,
    so it agrees with `strptime` on the fixed-width inputs handed to it here. */
module TimeFormat {
  import opened Text
  import opened Clock

  datatype Directive = Year | Month | MonthName | Day | Hour | Minute | Second | Offset | Lit(c: char)

  /** The date-time field a directive reads or writes. */
  datatype Field = FYear | FMonth | FDay | FHour | FMinute | FSecond | FOffset

  type Format = seq<Directive>

  /** `'%Y%m%d_%H%M%S'` */
  const CompactFormat: Format := [Year, Month, Day, Lit('_'), Hour, Minute, Second]
  /** `'%Y-%m-%d %H:%M:%S'` */
  const IsoFormat: Format :=
    [Year, Lit('-'), Month, Lit('-'), Day, Lit(' '), Hour, Lit(':'), Minute, Lit(':'), Second]
  /** `'%H:%M:%S'` */
  const ClockFormat: Format := [Hour, Lit(':'), Minute, Lit(':'), Second]
  /** `'%Y/%m/%d %H:%M:%S'` */
  const ErrorLogFormat: Format :=
    [Year, Lit('/'), Month, Lit('/'), Day, Lit(' '), Hour, Lit(':'), Minute, Lit(':'), Second]
  /** `'%d-%b-%Y %H:%M:%S'` */
  const SlowLogFormat: Format :=
    [Day, Lit('-'), MonthName, Lit('-'), Year, Lit(' '), Hour, Lit(':'), Minute, Lit(':'), Second]
  /** `'%d/%b/%Y:%H:%M:%S %z'` */
  const AccessLogFormat: Format :=
    [Day, Lit('/'), MonthName, Lit('/'), Year, Lit(':'), Hour, Lit(':'), Minute, Lit(':'), Second,
     Lit(' '), Offset]

  /** The month abbreviations of the C locale, as `%b` prints them. */
  const MonthNames: seq<string> :=
    ["Jan", "Feb", "Mar", "Apr", "May", "Jun", "Jul", "Aug", "Sep", "Oct", "Nov", "Dec"]

  // Decimal digits

  function Pow10(n: nat): nat {
    if n == 0 then 1 else 10 * Pow10(n - 1)
  }

  predicate IsDigit(c: char) {
    '0' <= c <= '9'
  }

  predicate AllDigits(s: string) {
    forall i :: 0 <= i < |s| ==> IsDigit(s[i])
  }

  function DigitChar(d: int): (c: char)
    requires 0 <= d < 10
    ensures IsDigit(c) && c as int - '0' as int == d
  {
    ('0' as int + d) as char
  }

  /** `n` in decimal, left-padded with zeros to `width` digits. */
  function Pad(n: int, width: nat): (s: string)
    requires 0 <= n < Pow10(width)
    ensures |s| == width && AllDigits(s)
  {
    if width == 0 then "" else Pad(n / 10, width - 1) + [DigitChar(n % 10)]
  }

  /** The number a string of decimal digits denotes. */
  function Value(s: string): nat
    requires AllDigits(s)
  {
    if s == [] then 0 else Value(s[..|s| - 1]) * 10 + (s[|s| - 1] as int - '0' as int)
  }

  lemma {:induction false} ValueOfPad(n: int, width: nat)
    requires 0 <= n < Pow10(width)
    ensures Value(Pad(n, width)) == n
    decreases width
  {
    if width > 0 {
      var s := Pad(n, width);
      assert s[..|s| - 1] == Pad(n / 10, width - 1);
      ValueOfPad(n / 10, width - 1);
    }
  }

  lemma DigitCharOf(c: char)
    requires IsDigit(c)
    ensures DigitChar(c as int - '0' as int) == c
  {
  }

  lemma {:induction false} PadOfValue(s: string)
    requires AllDigits(s)
    ensures Value(s) < Pow10(|s|) && Pad(Value(s), |s|) == s
    decreases |s|
  {
    if s != [] {
      var init := s[..|s| - 1];
      var last := s[|s| - 1];
      assert AllDigits(init);
      PadOfValue(init);
      var v := Value(init);
      var d := last as int - '0' as int;
      assert 0 <= d < 10;
      var n := v * 10 + d;
      assert Value(s) == n;
      assert n / 10 == v && n % 10 == d;
      assert n < Pow10(|s|);
      DigitCharOf(last);
      assert Pad(n, |s|) == Pad(v, |init|) + [DigitChar(d)];
      assert s == init + [last];
    }
  }

  // Month names

  function LowerAscii(c: char): char {
    if 'A' <= c <= 'Z' then (c as int + 32) as char else c
  }

  /** `%b` as `strptime` reads it: a month abbreviation, in any letter case. */
  function MonthFromName(s: string): (m: Option<int>)
    requires |s| == 3
    ensures m.Some? ==> 1 <= m.value <= 12
  {
    var l := [LowerAscii(s[0]), LowerAscii(s[1]), LowerAscii(s[2])];
    if l == "jan" then Some(1) else if l == "feb" then Some(2) else if l == "mar" then Some(3)
    else if l == "apr" then Some(4) else if l == "may" then Some(5) else if l == "jun" then Some(6)
    else if l == "jul" then Some(7) else if l == "aug" then Some(8) else if l == "sep" then Some(9)
    else if l == "oct" then Some(10) else if l == "nov" then Some(11) else if l == "dec" then Some(12)
    else None
  }

  lemma MonthNameRoundTrip(m: int)
    requires 1 <= m <= 12
    ensures MonthFromName(MonthNames[m - 1]) == Some(m)
  {
  }

  // Directives

  /** How many characters a directive reads. */
  function Width(d: Directive): nat {
    match d
    case Year => 4
    case MonthName => 3
    case Offset => 5
    case Lit(_) => 1
    case _ => 2
  }

  function Target(d: Directive): Option<Field> {
    match d
    case Year => Some(FYear)
    case Month => Some(FMonth)
    case MonthName => Some(FMonth)
    case Day => Some(FDay)
    case Hour => Some(FHour)
    case Minute => Some(FMinute)
    case Second => Some(FSecond)
    case Offset => Some(FOffset)
    case Lit(_) => None
  }

  function FieldOf(t: DateTime, k: Field): int {
    match k
    case FYear => t.year
    case FMonth => t.month
    case FDay => t.day
    case FHour => t.hour
    case FMinute => t.minute
    case FSecond => t.second
    case FOffset => 0
  }

  /** What `strftime` prints for one directive; `%z` prints nothing for a naive date-time. */
  function Render(t: DateTime, d: Directive): string
    requires Valid(t)
  {
    match d
    case Year => Pad(t.year, 4)
    case Month => Pad(t.month, 2)
    case MonthName => MonthNames[t.month - 1]
    case Day => Pad(t.day, 2)
    case Hour => Pad(t.hour, 2)
    case Minute => Pad(t.minute, 2)
    case Second => Pad(t.second, 2)
    case Offset => ""
    case Lit(c) => [c]
  }

  /** `t.strftime(f)` */
  function FormatTime(t: DateTime, f: Format): string
    requires Valid(t)
  {
    if f == [] then "" else Render(t, f[0]) + FormatTime(t, f[1..])
  }

  /** Reads the characters of one directive into the fields found so far. */
  function Read(d: Directive, piece: string, fs: map<Field, int>): Option<map<Field, int>>
    requires |piece| == Width(d)
  {
    match d
    case Lit(c) => if piece == [c] then Some(fs) else None
    case MonthName =>
      (match MonthFromName(piece)
       case Some(m) => Some(fs[FMonth := m])
       case None => None)
    case Offset =>
      if (piece[0] == '+' || piece[0] == '-') && AllDigits(piece[1..]) then
        var hh := Value(piece[1..3]);
        var mm := Value(piece[3..]);
        if hh < 24 && mm < 60 then
          Some(fs[FOffset := (if piece[0] == '-' then -1 else 1) * (hh * 60 + mm)])
        else None
      else None
    case _ => if AllDigits(piece) then Some(fs[Target(d).value := Value(piece)]) else None
  }

  /** Reads `s` against the whole format; the whole of `s` must be used. */
  function Scan(s: string, f: Format, fs: map<Field, int>): Option<map<Field, int>>
    decreases |f|
  {
    if f == [] then (if s == [] then Some(fs) else None)
    else if |s| < Width(f[0]) then None
    else
      match Read(f[0], s[..Width(f[0])], fs)
      case None => None
      case Some(fs') => Scan(s[Width(f[0])..], f[1..], fs')
  }

  function Lookup(fs: map<Field, int>, k: Field, default: int): int {
    if k in fs then fs[k] else default
  }

  /** The date-time `strptime` builds; fields the format does not mention default to
      1900-01-01 00:00:00. */
  function Build(fs: map<Field, int>): DateTime {
    DateTime(Lookup(fs, FYear, 1900), Lookup(fs, FMonth, 1), Lookup(fs, FDay, 1),
             Lookup(fs, FHour, 0), Lookup(fs, FMinute, 0), Lookup(fs, FSecond, 0))
  }

  /** A parsed timestamp: naive, or aware when the format had `%z` (offset in minutes). */
  datatype Stamp = Naive(time: DateTime) | Aware(time: DateTime, offsetMinutes: int)

  /** `datetime.strptime(s, f)`: `None` where Python raises `ValueError`. */
  function Parse(s: string, f: Format): (r: Option<Stamp>)
    ensures r.Some? ==> Valid(r.value.time)
  {
    match Scan(s, f, map[])
    case None => None
    case Some(fs) =>
      var t := Build(fs);
      if !Valid(t) then None
      else if FOffset in fs then Some(Aware(t, fs[FOffset]))
      else Some(Naive(t))
  }

  /** The number of characters a format prints when it has no `%b` and no `%z`. */
  function FormatWidth(f: Format): nat {
    if f == [] then 0 else Width(f[0]) + FormatWidth(f[1..])
  }

  /** Without `%b` and `%z` every directive prints exactly its width. */
  lemma {:induction false} FormatTimeLength(t: DateTime, f: Format)
    requires Valid(t) && MonthName !in f && Offset !in f
    ensures |FormatTime(t, f)| == FormatWidth(f)
    decreases |f|
  {
    if f != [] {
      assert f[0] in f && forall d | d in f[1..] :: d in f;
      FormatTimeLength(t, f[1..]);
    }
  }

  /** Without `%b` and `%z` a formatted time holds only digits and the format's literals. */
  lemma {:induction false} FormatTimeChars(t: DateTime, f: Format, c: char)
    requires Valid(t) && MonthName !in f && Offset !in f
    requires c in FormatTime(t, f)
    ensures IsDigit(c) || Lit(c) in f
    decreases |f|
  {
    assert f != [];
    assert f[0] in f && forall d | d in f[1..] :: d in f;
    if c !in Render(t, f[0]) {
      FormatTimeChars(t, f[1..], c);
    }
  }

  // Round trips

  /** The fields formatting `t` with `f` records, on top of `fs`. */
  function Record(t: DateTime, f: Format, fs: map<Field, int>): map<Field, int>
    decreases |f|
  {
    if f == [] then fs
    else
      var fs' := if Target(f[0]).Some? then fs[Target(f[0]).value := FieldOf(t, Target(f[0]).value)] else fs;
      Record(t, f[1..], fs')
  }

  predicate Mentions(f: Format, k: Field) {
    exists i | 0 <= i < |f| :: Target(f[i]) == Some(k)
  }

  lemma MentionsCons(f: Format, k: Field)
    requires f != []
    ensures Mentions(f, k) <==> Target(f[0]) == Some(k) || Mentions(f[1..], k)
  {
    if Mentions(f[1..], k) {
      var i :| 0 <= i < |f[1..]| && Target(f[1..][i]) == Some(k);
      assert Target(f[i + 1]) == Some(k);
    }
    if Mentions(f, k) && Target(f[0]) != Some(k) {
      var i :| 0 <= i < |f| && Target(f[i]) == Some(k);
      assert Target(f[1..][i - 1]) == Some(k);
    }
  }

  lemma {:induction false} RecordFields(t: DateTime, f: Format, fs: map<Field, int>, k: Field)
    ensures Mentions(f, k) ==> k in Record(t, f, fs) && Record(t, f, fs)[k] == FieldOf(t, k)
    ensures !Mentions(f, k) ==> (k in Record(t, f, fs) <==> k in fs)
    ensures !Mentions(f, k) && k in fs ==> Record(t, f, fs)[k] == fs[k]
    decreases |f|
  {
    if f != [] {
      var fs' := if Target(f[0]).Some? then fs[Target(f[0]).value := FieldOf(t, Target(f[0]).value)] else fs;
      RecordFields(t, f[1..], fs', k);
      MentionsCons(f, k);
    }
  }

  lemma ReadPadded(d: Directive, n: int, fs: map<Field, int>)
    requires d.Year? || d.Month? || d.Day? || d.Hour? || d.Minute? || d.Second?
    requires 0 <= n < Pow10(Width(d))
    ensures Read(d, Pad(n, Width(d)), fs) == Some(fs[Target(d).value := n])
  {
    ValueOfPad(n, Width(d));
  }

  lemma ReadRendered(t: DateTime, d: Directive, fs: map<Field, int>)
    requires Valid(t) && d != Offset
    ensures |Render(t, d)| == Width(d)
    ensures Read(d, Render(t, d), fs)
            == Some(if Target(d).Some? then fs[Target(d).value := FieldOf(t, Target(d).value)] else fs)
  {
    match d
    case Year => ReadPadded(d, t.year, fs);
    case Month => ReadPadded(d, t.month, fs);
    case MonthName => MonthNameRoundTrip(t.month);
    case Day => ReadPadded(d, t.day, fs);
    case Hour => ReadPadded(d, t.hour, fs);
    case Minute => ReadPadded(d, t.minute, fs);
    case Second => ReadPadded(d, t.second, fs);
    case Lit(c) =>
  }

  lemma {:induction false} ScanFormatted(t: DateTime, f: Format, fs: map<Field, int>)
    requires Valid(t)
    requires Offset !in f
    ensures Scan(FormatTime(t, f), f, fs) == Some(Record(t, f, fs))
    decreases |f|
  {
    if f != [] {
      var s := FormatTime(t, f);
      var piece := Render(t, f[0]);
      ReadRendered(t, f[0], fs);
      assert s[..Width(f[0])] == piece;
      assert s[Width(f[0])..] == FormatTime(t, f[1..]);
      var fs' := if Target(f[0]).Some? then fs[Target(f[0]).value := FieldOf(t, Target(f[0]).value)] else fs;
      ScanFormatted(t, f[1..], fs');
    }
  }

  lemma ConcatParts(a: string, b: string)
    ensures (a + b)[..|a|] == a && (a + b)[|a|..] == b
  {
  }

  /** Scanning a text that begins with what formatting printed for the first part of a
      format records that part's fields and goes on with the rest. */
  lemma {:induction false} ScanFormattedPrefix(t: DateTime, f: Format, g: Format, rest: string, fs: map<Field, int>)
    requires Valid(t)
    requires Offset !in f
    ensures Scan(FormatTime(t, f) + rest, f + g, fs) == Scan(rest, g, Record(t, f, fs))
    decreases |f|
  {
    if f == [] {
      assert f + g == g;
      assert FormatTime(t, f) + rest == rest;
    } else {
      var piece := Render(t, f[0]);
      var tail := FormatTime(t, f[1..]) + rest;
      ReadRendered(t, f[0], fs);
      assert (f + g)[0] == f[0] && (f + g)[1..] == f[1..] + g;
      assert FormatTime(t, f) + rest == piece + tail;
      ConcatParts(piece, tail);
      var fs' := if Target(f[0]).Some? then fs[Target(f[0]).value := FieldOf(t, Target(f[0]).value)] else fs;
      ScanFormattedPrefix(t, f[1..], g, rest, fs');
    }
  }

  /** The date-time built from what formatting `t` with a complete format recorded is `t`. */
  lemma BuildRecord(t: DateTime, f: Format, fs: map<Field, int>)
    requires Complete(f)
    ensures Build(Record(t, f, fs)) == t
  {
    RecordFields(t, f, fs, FYear);
    RecordFields(t, f, fs, FMonth);
    RecordFields(t, f, fs, FDay);
    RecordFields(t, f, fs, FHour);
    RecordFields(t, f, fs, FMinute);
    RecordFields(t, f, fs, FSecond);
  }

  lemma BuildIgnoresOffset(fs: map<Field, int>, v: int)
    ensures Build(fs[FOffset := v]) == Build(fs)
  {
  }

  /** A format that fixes every field of a date-time. */
  predicate Complete(f: Format) {
    Mentions(f, FYear) && Mentions(f, FMonth) && Mentions(f, FDay)
    && Mentions(f, FHour) && Mentions(f, FMinute) && Mentions(f, FSecond)
  }

  /** Parsing what formatting printed gives the date-time back. */
  lemma NoOffsetField(f: Format)
    requires Offset !in f
    ensures !Mentions(f, FOffset)
  {
    forall i | 0 <= i < |f| ensures Target(f[i]) != Some(FOffset) {
      assert f[i] != Offset;
    }
  }

  lemma FormatThenParse(t: DateTime, f: Format)
    requires Valid(t) && Complete(f) && Offset !in f
    ensures Parse(FormatTime(t, f), f) == Some(Naive(t))
  {
    ScanFormatted(t, f, map[]);
    var fs := Record(t, f, map[]);
    BuildRecord(t, f, map[]);
    NoOffsetField(f);
    RecordFields(t, f, map[], FOffset);
    assert FOffset !in fs;
  }

  /** A format in which no field is read twice. */
  predicate NoRepeats(f: Format) {
    forall i, j :: 0 <= i < j < |f| && f[i].Lit? == false ==> Target(f[i]) != Target(f[j])
  }

  /** Fields not mentioned by the rest of the format survive scanning unchanged. */
  lemma {:induction false} ScanKeeps(s: string, f: Format, fs: map<Field, int>, k: Field)
    requires Scan(s, f, fs).Some? && !Mentions(f, k)
    ensures (k in Scan(s, f, fs).value <==> k in fs)
    ensures k in fs ==> Scan(s, f, fs).value[k] == fs[k]
    decreases |f|
  {
    if f != [] {
      var fs' := Read(f[0], s[..Width(f[0])], fs).value;
      MentionsCons(f, k);
      ScanKeeps(s[Width(f[0])..], f[1..], fs', k);
    }
  }

  /** The rest of a format without repeated fields has none either, and does not mention
      the field its first directive reads. */
  lemma NoRepeatsTail(f: Format)
    requires f != [] && NoRepeats(f)
    ensures NoRepeats(f[1..])
    ensures !f[0].Lit? ==> !Mentions(f[1..], Target(f[0]).value)
  {
    forall i, j | 0 <= i < j < |f[1..]| && f[1..][i].Lit? == false
      ensures Target(f[1..][i]) != Target(f[1..][j])
    {
      assert f[1..][i] == f[i + 1] && f[1..][j] == f[j + 1];
    }
    if !f[0].Lit? {
      var k := Target(f[0]).value;
      forall j | 0 <= j < |f[1..]| ensures Target(f[1..][j]) != Some(k) {
        assert f[1..][j] == f[j + 1];
      }
    }
  }

  /** A digit directive that read the field's value prints back what it read. */
  lemma ReadThenRender(d: Directive, piece: string, fs: map<Field, int>, t: DateTime)
    requires Valid(t) && d != MonthName && d != Offset && |piece| == Width(d)
    requires Read(d, piece, fs).Some?
    requires !d.Lit? ==> Target(d).value in Read(d, piece, fs).value
                         && Read(d, piece, fs).value[Target(d).value] == FieldOf(t, Target(d).value)
    ensures Render(t, d) == piece
  {
    if !d.Lit? {
      PadOfValue(piece);
    }
  }

  /** A successful scan reads the first directive and scans the rest from there. */
  lemma ScanStep(s: string, f: Format, fs: map<Field, int>)
    requires f != [] && Scan(s, f, fs).Some?
    ensures |s| >= Width(f[0]) && Read(f[0], s[..Width(f[0])], fs).Some?
    ensures Scan(s[Width(f[0])..], f[1..], Read(f[0], s[..Width(f[0])], fs).value) == Scan(s, f, fs)
  {
  }

  /** Scanning then formatting: a digit-only format without repeated fields prints back
      exactly the text it read. */
  lemma {:induction false} ScanThenFormat(s: string, f: Format, fs: map<Field, int>, t: DateTime)
    requires Valid(t) && NoRepeats(f) && MonthName !in f && Offset !in f
    requires Scan(s, f, fs).Some?
    requires forall k :: k in Scan(s, f, fs).value ==> Scan(s, f, fs).value[k] == FieldOf(t, k)
    ensures FormatTime(t, f) == s
    decreases |f|
  {
    if f != [] {
      var w := Width(f[0]);
      var piece := s[..w];
      ScanStep(s, f, fs);
      var fs' := Read(f[0], piece, fs).value;
      var fin := Scan(s, f, fs).value;
      assert Scan(s[w..], f[1..], fs') == Some(fin);
      NoRepeatsTail(f);
      assert MonthName !in f[1..] && Offset !in f[1..] by {
        assert forall d | d in f[1..] :: d in f;
      }
      ScanThenFormat(s[w..], f[1..], fs', t);
      if !f[0].Lit? {
        ScanKeeps(s[w..], f[1..], fs', Target(f[0]).value);
      }
      ReadThenRender(f[0], piece, fs, t);
      assert s == s[..w] + s[w..];
    }
  }

  /** Formatting what parsing read prints the text back. */
  lemma ParseThenFormat(s: string, f: Format, t: DateTime)
    requires NoRepeats(f) && MonthName !in f && Offset !in f
    requires Parse(s, f) == Some(Naive(t))
    ensures FormatTime(t, f) == s
  {
    var fs := Scan(s, f, map[]).value;
    assert Build(fs) == t;
    forall k | k in fs ensures fs[k] == FieldOf(t, k) {
      if k == FOffset { assert false; }
    }
    ScanThenFormat(s, f, map[], t);
  }

  /** A format with `%z` yields only aware timestamps. */
  lemma {:induction false} ScanSetsOffset(s: string, f: Format, fs: map<Field, int>)
    requires Scan(s, f, fs).Some? && (Offset in f || FOffset in fs)
    ensures FOffset in Scan(s, f, fs).value
    decreases |f|
  {
    if f != [] {
      var fs' := Read(f[0], s[..Width(f[0])], fs).value;
      assert FOffset in fs' || Offset in f[1..];
      ScanSetsOffset(s[Width(f[0])..], f[1..], fs');
    }
  }

  lemma ParseWithOffsetIsAware(s: string, f: Format)
    requires Offset in f
    ensures Parse(s, f).None? || Parse(s, f).value.Aware?
  {
    if Scan(s, f, map[]).Some? {
      ScanSetsOffset(s, f, map[]);
    }
  }

  /** A format without `%z` yields only naive timestamps. */
  lemma ParseWithoutOffsetIsNaive(s: string, f: Format)
    requires Offset !in f
    ensures Parse(s, f).None? || Parse(s, f).value.Naive?
  {
    if Scan(s, f, map[]).Some? {
      assert !Mentions(f, FOffset);
      ScanKeeps(s, f, map[], FOffset);
    }
  }
}
