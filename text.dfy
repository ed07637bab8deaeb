/** The handful of Python string operations the snapshot collector relies on:
    `str.isspace`, `str.strip`, `str.split` with a one-character separator,
    `str.join`, `in` on strings, and the lines that iterating over a text file yields. */
module Text {

  datatype Option<+T> = None | Some(value: T)

  /** Python's `str.isspace()` for a single character. */
  predicate IsSpace(c: char) {
    || ('\t' <= c <= '\r')
    || ('\U{1c}' <= c <= ' ')
    || c == '\U{85}' || c == '\U{a0}' || c == '\U{1680}'
    || ('\U{2000}' <= c <= '\U{200a}')
    || c == '\U{2028}' || c == '\U{2029}' || c == '\U{202f}' || c == '\U{205f}' || c == '\U{3000}'
  }

  predicate StartsWith(s: string, prefix: string) {
    |prefix| <= |s| && s[..|prefix|] == prefix
  }

  predicate EndsWith(s: string, suffix: string) {
    |suffix| <= |s| && s[|s| - |suffix|..] == suffix
  }

  /** Python's `sub in s` for strings. */
  predicate Contains(s: string, sub: string)
    decreases |s|
  {
    StartsWith(s, sub) || (s != [] && Contains(s[1..], sub))
  }

  /** Leading whitespace removed: the result is a suffix of `s`, everything cut is whitespace,
      and the result does not start with whitespace. */
  function StripLeft(s: string): (r: string)
    ensures |r| <= |s| && r == s[|s| - |r|..]
    ensures forall i :: 0 <= i < |s| - |r| ==> IsSpace(s[i])
    ensures r == [] || !IsSpace(r[0])
  {
    if s != [] && IsSpace(s[0]) then StripLeft(s[1..]) else s
  }

  /** Trailing whitespace removed: the result is a prefix of `s`, everything cut is whitespace,
      and the result does not end with whitespace. */
  function StripRight(s: string): (r: string)
    ensures |r| <= |s| && r == s[..|r|]
    ensures forall i :: |r| <= i < |s| ==> IsSpace(s[i])
    ensures r == [] || !IsSpace(r[|r| - 1])
  {
    if s != [] && IsSpace(s[|s| - 1]) then StripRight(s[..|s| - 1]) else s
  }

  /** Python's `s.strip()`. */
  function Strip(s: string): string {
    StripRight(StripLeft(s))
  }

  /** Python's `s.split(sep)` for a separator of one character: the pieces between
      consecutive occurrences of `sep`, always at least one. */
  function Split(s: string, sep: char): (r: seq<string>)
    ensures |r| >= 1
    ensures forall i :: 0 <= i < |r| ==> sep !in r[i]
    decreases |s|
  {
    if s == [] then [""]
    else
      var rest := Split(s[1..], sep);
      if s[0] == sep then [""] + rest else [[s[0]] + rest[0]] + rest[1..]
  }

  /** Python's `sep.join(xs)`. */
  function Join(xs: seq<string>, sep: string): string {
    if xs == [] then ""
    else if |xs| == 1 then xs[0]
    else xs[0] + sep + Join(xs[1..], sep)
  }

  lemma JoinCons(x: string, xs: seq<string>, sep: string)
    ensures Join([x] + xs, sep) == if xs == [] then x else x + sep + Join(xs, sep)
  {
    assert ([x] + xs)[1..] == xs;
  }

  lemma {:induction false} JoinConcat(xs: seq<string>, ys: seq<string>, sep: string)
    requires xs != [] && ys != []
    ensures Join(xs + ys, sep) == Join(xs, sep) + sep + Join(ys, sep)
    decreases |xs|
  {
    if |xs| == 1 {
      assert (xs + ys)[1..] == ys;
    } else {
      assert (xs + ys)[1..] == xs[1..] + ys;
      JoinConcat(xs[1..], ys, sep);
    }
  }

  /** Pieces of a string that starts with a separator-free block `a`. */
  lemma {:induction false} SplitCons(a: string, b: string, sep: char)
    requires sep !in a
    ensures Split(a + b, sep) == [a + Split(b, sep)[0]] + Split(b, sep)[1..]
    decreases |a|
  {
    if a != [] {
      var pieces := Split(b, sep);
      assert (a + b)[1..] == a[1..] + b;
      SplitCons(a[1..], b, sep);
      var rest := Split(a[1..] + b, sep);
      assert rest[0] == a[1..] + pieces[0] && rest[1..] == pieces[1..];
      assert [a[0]] + (a[1..] + pieces[0]) == a + pieces[0];
    } else {
      var pieces := Split(b, sep);
      assert a + b == b;
      assert a + pieces[0] == pieces[0];
      assert pieces == [pieces[0]] + pieces[1..];
    }
  }

  /** Joining the pieces back with the separator gives the original string. */
  lemma {:induction false} JoinSplit(s: string, sep: char)
    ensures Join(Split(s, sep), [sep]) == s
    decreases |s|
  {
    if s != [] {
      var rest := Split(s[1..], sep);
      JoinSplit(s[1..], sep);
      if s[0] == sep {
        JoinCons("", rest, [sep]);
      } else {
        JoinCons(rest[0], rest[1..], [sep]);
        assert rest == [rest[0]] + rest[1..];
        JoinCons([s[0]] + rest[0], rest[1..], [sep]);
      }
    }
  }

  /** Splitting a join of separator-free pieces gives the pieces back. */
  lemma {:induction false} SplitJoin(xs: seq<string>, sep: char)
    requires xs != []
    requires forall i :: 0 <= i < |xs| ==> sep !in xs[i]
    ensures Split(Join(xs, [sep]), sep) == xs
    decreases |xs|
  {
    if |xs| == 1 {
      assert Join(xs, [sep]) == xs[0];
      assert xs[0] + "" == xs[0];
      SplitCons(xs[0], "", sep);
      assert Split("", sep) == [""];
      assert Split(xs[0], sep) == [xs[0] + ""];
      assert xs == [xs[0]];
    } else {
      SplitJoin(xs[1..], sep);
      var tail := Join(xs[1..], [sep]);
      assert xs[0] + [sep] + tail == xs[0] + ([sep] + tail);
      assert Join(xs, [sep]) == xs[0] + [sep] + tail;
      assert ([sep] + tail)[1..] == tail;
      assert Split([sep] + tail, sep) == [""] + Split(tail, sep);
      SplitCons(xs[0], [sep] + tail, sep);
      assert xs[0] + "" == xs[0];
      assert xs == [xs[0]] + xs[1..];
    }
  }

  /** The lines that iterating over a text file opened in text mode yields: each runs up to
      and including the next newline, and a last line without a newline is kept. */
  function Lines(text: string): (r: seq<string>)
    ensures forall i :: 0 <= i < |r| ==> r[i] != []
    decreases |text|
  {
    if text == [] then []
    else
      var rest := Lines(text[1..]);
      if text[0] == '\n' || rest == [] then [[text[0]]] + rest
      else [[text[0]] + rest[0]] + rest[1..]
  }

  /** Together the lines are the whole text. */
  lemma {:induction false} LinesJoin(text: string)
    ensures Join(Lines(text), "") == text
    decreases |text|
  {
    if text != [] {
      var rest := Lines(text[1..]);
      LinesJoin(text[1..]);
      if text[0] == '\n' || rest == [] {
        JoinCons([text[0]], rest, "");
        assert text == [text[0]] + text[1..];
      } else {
        JoinCons(rest[0], rest[1..], "");
        assert rest == [rest[0]] + rest[1..];
        JoinCons([text[0]] + rest[0], rest[1..], "");
        assert text == [text[0]] + text[1..];
      }
    }
  }

  /** A text with no newline before its last character is a single line. */
  lemma {:induction false} LinesSingle(text: string)
    requires text != [] && '\n' !in text[..|text| - 1]
    ensures Lines(text) == [text]
    decreases |text|
  {
    if |text| > 1 {
      assert text[1..][..|text[1..]| - 1] == text[1..|text| - 1];
      assert text[0] == text[..|text| - 1][0];
      LinesSingle(text[1..]);
      assert text[0] != '\n';
      assert Lines(text) == [[text[0]] + text[1..]] + [];
      assert [text[0]] + text[1..] == text;
    } else {
      assert Lines(text) == [[text[0]]] + [];
      assert [text[0]] == text;
    }
  }

  /** A line holds a newline only as its last character, and every line but the last
      ends with one. */
  lemma {:induction false} LinesShape(text: string)
    ensures forall i :: 0 <= i < |Lines(text)| ==> '\n' !in Lines(text)[i][..|Lines(text)[i]| - 1]
    ensures forall i :: 0 <= i < |Lines(text)| - 1 ==> Lines(text)[i][|Lines(text)[i]| - 1] == '\n'
    decreases |text|
  {
    if text != [] {
      var rest := Lines(text[1..]);
      LinesShape(text[1..]);
      var r := Lines(text);
      if text[0] == '\n' || rest == [] {
        assert r == [[text[0]]] + rest;
        forall i | 0 <= i < |r| ensures '\n' !in r[i][..|r[i]| - 1] {
          if i > 0 { assert r[i] == rest[i - 1]; }
        }
      } else {
        var first := [text[0]] + rest[0];
        assert r == [first] + rest[1..];
        assert first[..|first| - 1] == [text[0]] + rest[0][..|rest[0]| - 1];
        forall i | 0 <= i < |r| ensures '\n' !in r[i][..|r[i]| - 1] {
          if i > 0 { assert r[i] == rest[i]; }
        }
        forall i | 0 <= i < |r| - 1 ensures r[i][|r[i]| - 1] == '\n' {
          if i > 0 { assert r[i] == rest[i]; } else { assert r[0][|r[0]| - 1] == rest[0][|rest[0]| - 1]; }
        }
      }
    }
  }
}
