/** Rust's `std::path` on a Unix-like host (macOS, Linux), reduced to what the
    central skill repository needs: a path is its sequence of components as
    `Path::components` yields them. */
module Paths {
  import opened Wrappers
  import opened Text

  datatype Component = RootDir | CurDir | ParentDir | Normal(name: string)

  type Path = seq<Component>

  /** A name `Path::components` can yield as a normal component. */
  predicate ValidName(n: string) {
    n != "" && n != "." && n != ".." && '/' !in n
  }

  /** The shapes `Path::components` produces: the root only first, `.` only
      first and only in a relative path, normal names non-empty and free of
      `/`. */
  predicate WellFormed(p: Path) {
    forall i :: 0 <= i < |p| ==>
      match p[i]
      case RootDir => i == 0
      case CurDir => i == 0
      case ParentDir => true
      case Normal(n) => ValidName(n)
  }

  predicate IsAbsolute(p: Path) {
    |p| > 0 && p[0] == RootDir
  }

  /** The components of the `/`-separated pieces of a path's text: empty
      pieces and `.` disappear, `..` is a parent step. */
  function PieceComponents(pieces: seq<string>): (p: Path)
    requires forall i :: 0 <= i < |pieces| ==> '/' !in pieces[i]
    ensures WellFormed(p) && (|p| > 0 ==> p[0] != RootDir && p[0] != CurDir)
  {
    if pieces == [] then []
    else
      var head: Path :=
        if pieces[0] == "" || pieces[0] == "." then []
        else if pieces[0] == ".." then [ParentDir]
        else [Normal(pieces[0])];
      head + PieceComponents(pieces[1..])
  }

  /** `Path::new(s).components()` on Unix: a leading `/` is the root, a
      leading `.` of a relative path is kept as `CurDir`. */
  function Parse(s: string): (p: Path)
    ensures WellFormed(p)
    ensures IsAbsolute(p) <==> "/" <= s
  {
    var pieces := SplitOn(s, {'/'});
    var lead: Path :=
      if "/" <= s then [RootDir]
      else if s == "." || "./" <= s then [CurDir]
      else [];
    lead + PieceComponents(pieces)
  }

  function ComponentText(c: Component): string {
    match c
    case RootDir => ""
    case CurDir => "."
    case ParentDir => ".."
    case Normal(n) => n
  }

  function Texts(p: Path): (r: seq<string>)
    ensures |r| == |p| && forall i :: 0 <= i < |p| ==> r[i] == ComponentText(p[i])
  {
    if p == [] then [] else [ComponentText(p[0])] + Texts(p[1..])
  }

  /** `to_string_lossy()` of a path in its canonical spelling. */
  function Render(p: Path): string {
    if IsAbsolute(p) then "/" + JoinWith(Texts(p[1..]), '/') else JoinWith(Texts(p), '/')
  }

  /** `base.join(p)`: an absolute `p` replaces `base`; otherwise `p` is
      appended, a leading `.` of `p` disappearing inside the longer path. */
  function Join(base: Path, p: Path): (r: Path)
    requires WellFormed(base) && WellFormed(p)
    ensures WellFormed(r)
    ensures !IsAbsolute(p) && base != [] ==> base <= r
  {
    if IsAbsolute(p) || base == [] then p
    else if p != [] && p[0] == CurDir then base + p[1..]
    else base + p
  }

  /** `Path::file_name`: the last component when it is a normal name. */
  function FileName(p: Path): (r: Option<string>)
    ensures r.Some? <==> |p| > 0 && p[|p| - 1].Normal?
    ensures r.Some? ==> r.value == p[|p| - 1].name
  {
    if |p| > 0 && p[|p| - 1].Normal? then Some(p[|p| - 1].name) else None
  }

  /** `Path::strip_prefix`: defined exactly when `base`'s components start
      `p`'s components; the rest of the components is the answer. */
  function StripPrefix(p: Path, base: Path): (r: Option<Path>)
    ensures r.Some? <==> base <= p
    ensures r.Some? ==> p == base + r.value
  {
    if base <= p then Some(p[|base|..]) else None
  }

  // ---------------------------------------------------------------------
  // Rendering and parsing are inverse on well-formed paths
  // ---------------------------------------------------------------------

  /** Reading back the canonical text of a well-formed path gives the same
      components. */
  lemma ParseRender(p: Path)
    requires WellFormed(p)
    ensures Parse(Render(p)) == p
  {
    if IsAbsolute(p) {
      ParseRenderAbsolute(p);
    } else if |p| > 0 && p[0] == CurDir {
      ParseRenderCurDir(p);
    } else {
      assert NoLead(p);
      SplitJoinedNames(p);
      if |p| > 0 {
        FirstChar(p);
      }
    }
  }

  predicate NoLead(p: Path) {
    forall i :: 0 <= i < |p| ==> p[i] != RootDir && p[i] != CurDir
  }

  lemma TailNoLead(p: Path)
    requires WellFormed(p) && |p| > 0
    ensures WellFormed(p[1..]) && NoLead(p[1..])
  {
    forall i | 0 <= i < |p[1..]| ensures p[1..][i] == p[i + 1] {}
  }

  lemma ParseRenderAbsolute(p: Path)
    requires WellFormed(p) && IsAbsolute(p)
    ensures Parse(Render(p)) == p
  {
    var rest := p[1..];
    TailNoLead(p);
    var body := JoinWith(Texts(rest), '/');
    SplitJoinedNames(rest);
    var s := "/" + body;
    assert Render(p) == s;
    SplitFirstPiece("", body);
    assert "" + "/" + body == s;
    SkipPiece("", SplitOn(body, {'/'}));
    assert "/" <= s;
    ParseUnfold(s);
    assert p == [RootDir] + rest;
  }

  lemma ParseRenderCurDir(p: Path)
    requires WellFormed(p) && |p| > 0 && p[0] == CurDir
    ensures Parse(Render(p)) == p
  {
    var rest := p[1..];
    TailNoLead(p);
    SplitJoinedNames(rest);
    var body := JoinWith(Texts(rest), '/');
    assert Texts(p) == ["."] + Texts(rest);
    assert !IsAbsolute(p);
    ParseUnfold(Render(p));
    if rest == [] {
      assert Render(p) == ".";
      SplitNoSep(".");
      SkipPiece(".", []);
    } else {
      var s := "." + "/" + body;
      assert Render(p) == s;
      assert "./" <= s;
      SplitFirstPiece(".", body);
      SkipPiece(".", SplitOn(body, {'/'}));
    }
    assert p == [CurDir] + rest;
  }

  lemma ParseUnfold(s: string)
    ensures Parse(s) ==
      (if "/" <= s then [RootDir] else if s == "." || "./" <= s then [CurDir] else [])
      + PieceComponents(SplitOn(s, {'/'}))
  {
  }

  /** Empty and `.` pieces contribute no component. */
  lemma SkipPiece(t: string, pieces: seq<string>)
    requires t == "" || t == "."
    requires forall i :: 0 <= i < |pieces| ==> '/' !in pieces[i]
    ensures PieceComponents([t] + pieces) == PieceComponents(pieces)
  {
    var q := [t] + pieces;
    assert q[1..] == pieces;
    assert forall i :: 1 <= i < |q| ==> q[i] == pieces[i - 1];
    assert '/' !in q[0];
  }

  /** The text of a relative path that starts with a normal name or `..`
      neither starts with `/` nor is `.` or starts with `./`. */
  lemma FirstChar(p: Path)
    requires WellFormed(p) && NoLead(p) && |p| > 0
    ensures var s := JoinWith(Texts(p), '/'); |s| > 0 && s[0] != '/' && s != "." && !("./" <= s)
  {
    var t := Texts(p);
    var s := JoinWith(t, '/');
    var h := t[0];
    assert h == ComponentText(p[0]);
    assert h <= s by {
      if |t| > 1 {
        assert s == h + "/" + JoinWith(t[1..], '/');
      }
    }
    match p[0]
    case ParentDir =>
      assert s[0] == '.' && s[1] == '.';
    case Normal(n) =>
      assert s[0] == n[0];
      assert n[0] != '/' by { assert n[0] in n; }
      if n[0] == '.' {
        assert |n| >= 2 && n[1] != '/' by { if |n| >= 2 { assert n[1] in n; } }
        assert s[1] == n[1];
      }
  }

  /** Splitting the joined names of a relative path and reading the pieces
      back gives the path. */
  lemma {:induction false} SplitJoinedNames(p: Path)
    requires WellFormed(p) && NoLead(p)
    ensures PieceComponents(SplitOn(JoinWith(Texts(p), '/'), {'/'})) == p
    decreases |p|
  {
    if p != [] {
      var rest := p[1..];
      TailNoLead(p);
      var t := ComponentText(p[0]);
      assert '/' !in t && t != "" && t != "." by {
        match p[0]
        case ParentDir =>
        case Normal(n) =>
      }
      assert Texts(p) == [t] + Texts(rest);
      if rest == [] {
        assert JoinWith(Texts(p), '/') == t;
        SplitNoSep(t);
      } else {
        SplitJoinedNames(rest);
        var body := JoinWith(Texts(rest), '/');
        assert JoinWith(Texts(p), '/') == t + "/" + body;
        SplitFirstPiece(t, body);
        assert ([t] + SplitOn(body, {'/'}))[1..] == SplitOn(body, {'/'});
      }
      assert p == [p[0]] + rest;
    }
  }

  /** Text without a separator is one piece. */
  lemma {:induction false} SplitNoSep(t: string)
    requires '/' !in t
    ensures SplitOn(t, {'/'}) == [t]
    decreases |t|
  {
    if t != [] {
      SplitNoSep(t[1..]);
      assert [t[0]] + t[1..] == t;
    }
  }

  /** A separator-free first piece splits off in front of the rest. */
  lemma {:induction false} SplitFirstPiece(t: string, body: string)
    requires '/' !in t
    ensures SplitOn(t + "/" + body, {'/'}) == [t] + SplitOn(body, {'/'})
    decreases |t|
  {
    if t == [] {
      assert t + "/" + body == "/" + body;
      assert ("/" + body)[1..] == body;
    } else {
      SplitFirstPiece(t[1..], body);
      assert (t + "/" + body)[1..] == t[1..] + "/" + body;
      assert [t[0]] + t[1..] == t;
    }
  }
}
