/** POSIX paths as `pathlib.PurePosixPath` treats them: an absolute flag and the list of
    parts, with empty parts and `.` parts dropped when a string is parsed. */
module Paths {
  import opened Text

  datatype Path = Path(absolute: bool, parts: seq<string>)

  predicate IsPart(s: string) {
    s != "" && s != "." && '/' !in s
  }

  predicate WellFormed(p: Path) {
    forall i :: 0 <= i < |p.parts| ==> IsPart(p.parts[i])
  }

  /** The pieces of a split path string that `pathlib` keeps as parts. */
  function KeepParts(pieces: seq<string>): (r: seq<string>)
    ensures |r| <= |pieces|
    ensures forall i :: 0 <= i < |r| ==> r[i] in pieces && r[i] != "" && r[i] != "."
    ensures (forall i :: 0 <= i < |pieces| ==> IsPart(pieces[i])) ==> r == pieces
  {
    if pieces == [] then []
    else (if pieces[0] == "" || pieces[0] == "." then [] else [pieces[0]]) + KeepParts(pieces[1..])
  }

  /** `PurePosixPath(s)` */
  function FromString(s: string): (p: Path)
    ensures WellFormed(p)
  {
    Path(|s| > 0 && s[0] == '/', KeepParts(Split(s, '/')))
  }

  /** `str(p)` */
  function ToString(p: Path): string {
    if p.absolute then "/" + Join(p.parts, "/")
    else if p.parts == [] then "."
    else Join(p.parts, "/")
  }

  /** `base / rel` for two path objects: an absolute right-hand side replaces the base. */
  function Concat(base: Path, rel: Path): Path {
    if rel.absolute then rel else Path(base.absolute, base.parts + rel.parts)
  }

  /** `base / s` for a string `s`. */
  function Child(base: Path, s: string): Path {
    Concat(base, FromString(s))
  }

  /** `p.name` */
  function Name(p: Path): string {
    if p.parts == [] then "" else p.parts[|p.parts| - 1]
  }

  /** `p.parent` */
  function Parent(p: Path): Path {
    if p.parts == [] then p else Path(p.absolute, p.parts[..|p.parts| - 1])
  }

  /** `p.relative_to(base)`; `None` where `pathlib` raises `ValueError`. When it succeeds,
      `p` is `base / r` for the relative path `r` it returns. */
  function RelativeTo(p: Path, base: Path): (r: Option<Path>)
    ensures r.Some? ==> !r.value.absolute && Concat(base, r.value) == p
  {
    var n := |base.parts|;
    if p.absolute == base.absolute && n <= |p.parts| && p.parts[..n] == base.parts then
      assert p.parts == base.parts + p.parts[n..];
      Some(Path(false, p.parts[n..]))
    else
      None
  }

  /** `relative_to` fails only when `p` is not `base / rel` for any relative `rel`. */
  lemma RelativeToNone(p: Path, base: Path)
    requires RelativeTo(p, base).None?
    ensures forall rel: Path :: !rel.absolute ==> Concat(base, rel) != p
  {
    var n := |base.parts|;
    assert forall rel: Path :: !rel.absolute ==> (base.parts + rel.parts)[..n] == base.parts;
  }

  // Round trips

  lemma SplitSeparatorFree(s: string, sep: char)
    requires sep !in s
    ensures Split(s, sep) == [s]
  {
    SplitCons(s, "", sep);
    assert s + "" == s;
  }

  /** Printing a well-formed path and parsing the text gives the path back. */
  lemma FromStringOfToString(p: Path)
    requires WellFormed(p)
    ensures FromString(ToString(p)) == p
  {
    var s := ToString(p);
    if p.parts == [] {
      if p.absolute {
        assert s == "/";
        assert Split(s, '/') == ["", ""];
      } else {
        assert s == ".";
        SplitSeparatorFree(".", '/');
      }
    } else {
      var j := Join(p.parts, "/");
      SplitJoin(p.parts, '/');
      assert p.parts[0] == [p.parts[0][0]] + p.parts[0][1..];
      JoinFirst(p.parts, "/");
      if p.absolute {
        assert ("/" + j)[1..] == j;
        assert Split("/" + j, '/') == [""] + Split(j, '/');
      } else {
        assert s[0] == p.parts[0][0];
      }
    }
  }

  lemma JoinFirst(xs: seq<string>, sep: string)
    requires xs != [] && xs[0] != []
    ensures Join(xs, sep) != [] && Join(xs, sep)[0] == xs[0][0]
  {
  }

  /** Extending a base and taking the path relative to that base again gives the extension. */
  lemma RelativeToOfConcat(base: Path, rel: Path)
    requires !rel.absolute
    ensures RelativeTo(Concat(base, rel), base) == Some(rel)
  {
    var p := Concat(base, rel);
    assert p.parts[..|base.parts|] == base.parts;
    assert p.parts[|base.parts|..] == rel.parts;
  }

  /** The string of `base / s` for a relative, non-empty base and a relative `s`: the base's
      string, a separator, and the parts of `s`. */
  lemma ChildToString(base: Path, s: string)
    requires !base.absolute && base.parts != []
    requires !FromString(s).absolute && FromString(s).parts != []
    ensures ToString(Child(base, s)) == ToString(base) + "/" + Join(FromString(s).parts, "/")
  {
    JoinConcat(base.parts, FromString(s).parts, "/");
  }

  // Last parts

  lemma {:induction false} SplitLastEndsWith(s: string, x: string, sep: char)
    requires EndsWith(s, x) && sep !in x
    ensures EndsWith(Split(s, sep)[|Split(s, sep)| - 1], x)
    decreases |s|
  {
    if |s| == |x| {
      assert s == x;
      SplitSeparatorFree(s, sep);
    } else {
      var rest := Split(s[1..], sep);
      assert s[1..][|s[1..]| - |x|..] == s[|s| - |x|..];
      SplitLastEndsWith(s[1..], x, sep);
      if s[0] != sep && |rest| == 1 {
        var last := [s[0]] + rest[0];
        assert last[|last| - |x|..] == rest[0][|rest[0]| - |x|..];
      }
    }
  }

  lemma {:induction false} KeepPartsLast(pieces: seq<string>)
    requires pieces != []
    requires pieces[|pieces| - 1] != "" && pieces[|pieces| - 1] != "."
    ensures KeepParts(pieces) != [] && KeepParts(pieces)[|KeepParts(pieces)| - 1] == pieces[|pieces| - 1]
    decreases |pieces|
  {
    if |pieces| > 1 {
      KeepPartsLast(pieces[1..]);
    }
  }

  lemma {:induction false} JoinEndsWithLast(xs: seq<string>, sep: string)
    requires xs != []
    ensures EndsWith(Join(xs, sep), xs[|xs| - 1])
    decreases |xs|
  {
    if |xs| > 1 {
      JoinEndsWithLast(xs[1..], sep);
      var j := Join(xs, sep);
      var last := xs[|xs| - 1];
      var rest := Join(xs[1..], sep);
      assert j == xs[0] + sep + rest;
      assert j[|j| - |last|..] == rest[|rest| - |last|..];
    }
  }

  lemma FromStringEndsWith(s: string, x: string)
    requires EndsWith(s, x) && x != "" && x != "." && '/' !in x
    ensures FromString(s).parts != []
    ensures EndsWith(Name(FromString(s)), x)
  {
    var pieces := Split(s, '/');
    var last := pieces[|pieces| - 1];
    SplitLastEndsWith(s, x, '/');
    assert last[|last| - |x|..] == x;
    assert |last| == 1 ==> last == x;
    KeepPartsLast(pieces);
  }

  lemma EndsWithOfEnds(a: string, b: string, x: string)
    requires EndsWith(b, x)
    ensures EndsWith(a + b, x)
  {
    assert (a + b)[|a + b| - |x|..] == b[|b| - |x|..];
  }

  lemma EndsWithTransitive(a: string, b: string, x: string)
    requires EndsWith(a, b) && EndsWith(b, x)
    ensures EndsWith(a, x)
  {
    assert a[|a| - |x|..] == b[|b| - |x|..];
  }

  /** The last part of `base / s` ends with whatever file-name suffix `s` ends with, and so
      does its string form. */
  lemma ChildEndsWith(base: Path, s: string, x: string)
    requires EndsWith(s, x) && x != "" && x != "." && '/' !in x
    ensures EndsWith(Name(Child(base, s)), x)
    ensures EndsWith(ToString(Child(base, s)), x)
  {
    FromStringEndsWith(s, x);
    var p := Child(base, s);
    assert Name(p) == Name(FromString(s));
    JoinEndsWithLast(p.parts, "/");
    var j := Join(p.parts, "/");
    assert p.parts != [];
    EndsWithTransitive(j, Name(p), x);
    if p.absolute {
      EndsWithOfEnds("/", j, x);
      assert ToString(p) == "/" + j;
    } else {
      assert ToString(p) == j;
    }
  }
}
