/** The central skill repository's path rules: how a skill's location is
    stored (relative to the repository directory) and resolved again, how
    legacy absolute paths from any platform are recognised, and how a
    user-typed storage path expands `~`. */
module CentralRepo {
  import opened Wrappers
  import opened Text
  import opened Paths

  // ---------------------------------------------------------------------
  // to_relative_central_path
  // ---------------------------------------------------------------------

  /** `to_relative_central_path`: under the repository directory, the rest
      of the path with `/` separators; elsewhere the file name, or the whole
      path text when there is no file name. */
  function ToRelativeCentralPath(absolutePath: Path, centralDir: Path): (r: string)
    ensures centralDir <= absolutePath ==>
      r == ReplaceBackslash(Render(absolutePath[|centralDir|..]))
    ensures !(centralDir <= absolutePath) && FileName(absolutePath).Some? ==>
      r == absolutePath[|absolutePath| - 1].name
    ensures !(centralDir <= absolutePath) && FileName(absolutePath).None? ==>
      r == ReplaceBackslash(Render(absolutePath))
    ensures centralDir <= absolutePath ==> '\\' !in r
  {
    match StripPrefix(absolutePath, centralDir)
    case Some(rel) => ReplaceBackslash(Render(rel))
    case None =>
      match FileName(absolutePath)
      case Some(n) => n
      case None => ReplaceBackslash(Render(absolutePath))
  }

  // ---------------------------------------------------------------------
  // is_any_platform_absolute
  // ---------------------------------------------------------------------

  predicate IsAsciiLetter(c: char) {
    ('a' <= c <= 'z') || ('A' <= c <= 'Z')
  }

  /** `is_any_platform_absolute`: a Unix absolute path, or a Windows drive
      path `X:\...` / `X:/...`. The source inspects bytes; since a byte that
      is an ASCII letter is a whole character, looking at characters gives
      the same answer. */
  predicate IsAnyPlatformAbsolute(s: string) {
    || "/" <= s
    || (|s| >= 3 && IsAsciiLetter(s[0]) && s[1] == ':' && (s[2] == '\\' || s[2] == '/'))
  }

  /** Every native (Unix) absolute path is also recognised here. */
  lemma NativeAbsoluteIsAnyPlatformAbsolute(s: string)
    ensures IsAbsolute(Parse(s)) ==> IsAnyPlatformAbsolute(s)
  {
  }

  /** A drive letter without a separator, a drive-relative path and a UNC
      share are not recognised as absolute. */
  lemma NotAnyPlatformAbsolute(rest: string)
    ensures !IsAnyPlatformAbsolute("C:")
    ensures !IsAnyPlatformAbsolute("C:x" + rest)
    ensures !IsAnyPlatformAbsolute("\\\\" + rest)
    ensures IsAnyPlatformAbsolute("C:\\" + rest) && IsAnyPlatformAbsolute("d:/" + rest)
  {
    assert "C:"[0] == 'C';
    assert ("C:x" + rest)[0] == 'C';
    assert ("C:x" + rest)[2] == 'x';
    assert ("\\\\" + rest)[0] == '\\';
    assert ("C:\\" + rest)[..3] == "C:\\";
    assert ("d:/" + rest)[..3] == "d:/";
  }

  /** A single skill-directory name never looks absolute. */
  lemma NameNotAnyPlatformAbsolute(name: string)
    requires ValidName(name) && '\\' !in name
    ensures !IsAnyPlatformAbsolute(name)
  {
    assert name[0] != '/' by { assert name[0] in name; }
    if |name| >= 3 {
      assert name[2] in name;
    }
  }

  // ---------------------------------------------------------------------
  // resolve_skill_central_path
  // ---------------------------------------------------------------------

  /** Every piece is empty. */
  predicate AllEmpty(pieces: seq<string>) {
    forall i :: 0 <= i < |pieces| ==> pieces[i] == ""
  }

  /** The last non-empty piece, as `rsplit(..).find(|s| !s.is_empty())`. */
  function LastNonEmpty(pieces: seq<string>): (r: Option<string>)
    ensures r.None? <==> AllEmpty(pieces)
    ensures r.Some? ==> exists i :: 0 <= i < |pieces| && pieces[i] == r.value && r.value != "" &&
                                    forall j :: i < j < |pieces| ==> pieces[j] == ""
  {
    if pieces == [] then None
    else if pieces[|pieces| - 1] != "" then Some(pieces[|pieces| - 1])
    else
      var r := LastNonEmpty(pieces[..|pieces| - 1]);
      assert forall i :: 0 <= i < |pieces| - 1 ==> pieces[..|pieces| - 1][i] == pieces[i];
      r
  }

  /** Both platforms' path separators. */
  const Separators: set<char> := {'/', '\\'}

  /** The skill name of a legacy absolute path: its last non-empty piece when
      split at both `/` and `\`, or the whole text when there is none. */
  function LegacySkillName(stored: string): (name: string)
    ensures var pieces := SplitOn(stored, Separators);
      AllEmpty(pieces) ==> name == stored
    ensures var pieces := SplitOn(stored, Separators);
      !AllEmpty(pieces) ==>
        && name != "" && '/' !in name && '\\' !in name
        && exists i :: 0 <= i < |pieces| && pieces[i] == name && forall j :: i < j < |pieces| ==> pieces[j] == ""
  {
    var pieces := SplitOn(stored, Separators);
    match LastNonEmpty(pieces)
    case None => stored
    case Some(piece) =>
      piece
  }

  /** `resolve_skill_central_path`. `onDisk` answers `stored.exists()`, the
      one question the source asks the file system. */
  function ResolveSkillCentralPath(stored: string, centralDir: Path, onDisk: bool): (r: Path)
    requires WellFormed(centralDir)
    ensures WellFormed(r)
    ensures "/" <= stored && onDisk ==> r == Parse(stored)
    ensures !("/" <= stored && onDisk) && IsAnyPlatformAbsolute(stored) ==>
      r == Join(centralDir, Parse(LegacySkillName(stored)))
    ensures !IsAnyPlatformAbsolute(stored) ==> r == Join(centralDir, Parse(stored))
    ensures !IsAnyPlatformAbsolute(stored) && centralDir != [] ==> centralDir <= r
  {
    var p := Parse(stored);
    if IsAbsolute(p) && onDisk then p
    else if IsAnyPlatformAbsolute(stored) then Join(centralDir, Parse(LegacySkillName(stored)))
    else Join(centralDir, p)
  }

  /** A legacy absolute path (for instance `C:\Users\me\skills\foo` restored
      on a Unix host) that does not exist here resolves to the directory of
      the same name directly inside the current repository. */
  lemma LegacyPathResolvesInsideCentral(stored: string, centralDir: Path, onDisk: bool)
    requires WellFormed(centralDir) && centralDir != []
    requires IsAnyPlatformAbsolute(stored) && !("/" <= stored && onDisk)
    requires ValidName(LegacySkillName(stored))
    ensures ResolveSkillCentralPath(stored, centralDir, onDisk) == centralDir + [Normal(LegacySkillName(stored))]
  {
    var name := LegacySkillName(stored);
    ParseName(name);
  }

  /** A valid name parses to the one normal component it names. */
  lemma ParseName(name: string)
    requires ValidName(name)
    ensures Parse(name) == [Normal(name)]
  {
    ParseRender([Normal(name)]);
    assert Render([Normal(name)]) == name;
  }

  /** Storing a skill directory that lies inside the repository and resolving
      the stored text against the same repository gives the directory back,
      for any names that contain no `\` and do not together look like a
      Windows drive path. */
  lemma StoreThenResolve(centralDir: Path, rel: Path, onDisk: bool)
    requires WellFormed(centralDir)
    requires |rel| > 0 && forall i :: 0 <= i < |rel| ==> rel[i].Normal? && ValidName(rel[i].name) && '\\' !in rel[i].name
    requires !IsAnyPlatformAbsolute(Render(rel))
    ensures ResolveSkillCentralPath(ToRelativeCentralPath(centralDir + rel, centralDir), centralDir, onDisk)
         == centralDir + rel
  {
    var full := centralDir + rel;
    assert full[|centralDir|..] == rel;
    assert WellFormed(rel);
    var text := Render(rel);
    NoBackslashRendered(rel);
    ReplaceBackslashIdentity(text);
    assert ToRelativeCentralPath(full, centralDir) == text;
    ParseRender(rel);
  }

  lemma NoBackslashRendered(rel: Path)
    requires forall i :: 0 <= i < |rel| ==> rel[i].Normal? && '\\' !in rel[i].name
    ensures !IsAbsolute(rel)
    ensures '\\' !in Render(rel)
  {
    var t := Texts(rel);
    assert forall i :: 0 <= i < |t| ==> '\\' !in t[i];
    NoCharJoined(t, '/', '\\');
  }

  lemma {:induction false} NoCharJoined(pieces: seq<string>, sep: char, c: char)
    requires sep != c
    requires forall i :: 0 <= i < |pieces| ==> c !in pieces[i]
    ensures c !in JoinWith(pieces, sep)
    decreases |pieces|
  {
    if |pieces| > 1 {
      NoCharJoined(pieces[1..], sep, c);
      assert pieces[0] + [sep] + JoinWith(pieces[1..], sep) == JoinWith(pieces, sep);
    }
  }

  lemma ReplaceBackslashIdentity(s: string)
    requires '\\' !in s
    ensures ReplaceBackslash(s) == s
  {
    var r := ReplaceBackslash(s);
    assert forall i :: 0 <= i < |s| ==> r[i] == s[i];
  }

  /** The round trip for the common case: one skill directory name. */
  lemma StoreThenResolveName(centralDir: Path, name: string, onDisk: bool)
    requires WellFormed(centralDir)
    requires ValidName(name) && '\\' !in name
    ensures ResolveSkillCentralPath(ToRelativeCentralPath(centralDir + [Normal(name)], centralDir), centralDir, onDisk)
         == centralDir + [Normal(name)]
  {
    assert Render([Normal(name)]) == name;
    NameNotAnyPlatformAbsolute(name);
    StoreThenResolve(centralDir, [Normal(name)], onDisk);
  }

  /** `Path::join` does not resolve `..`: a stored `../x` resolves to a path
      that extends the repository directory component-wise but names a
      sibling of it. */
  lemma ParentDirNotResolved(centralDir: Path, onDisk: bool)
    requires WellFormed(centralDir) && centralDir != []
    ensures ResolveSkillCentralPath("../x", centralDir, onDisk) == centralDir + [ParentDir, Normal("x")]
  {
    var rel := [ParentDir, Normal("x")];
    assert Texts(rel) == ["..", "x"];
    assert JoinWith(["..", "x"], '/') == "../x";
    ParseRender(rel);
    assert "../x"[0] == '.' && "../x"[1] == '.';
  }

  // ---------------------------------------------------------------------
  // The stored text of a name holding `\`
  // ---------------------------------------------------------------------

  /** On a Unix host a directory name may hold `\`. `to_relative_central_path`
      turns it into `/`, so the stored text resolves to a deeper path than
      the one stored: `/c/a\b` is stored as `a/b` and read back as `/c/a/b`. */
  lemma BackslashNameDoesNotRoundTrip(onDisk: bool)
    ensures var centralDir := [RootDir, Normal("c")];
            var full := centralDir + [Normal("a\\b")];
            && ToRelativeCentralPath(full, centralDir) == "a/b"
            && ResolveSkillCentralPath("a/b", centralDir, onDisk) == centralDir + [Normal("a"), Normal("b")]
            && ResolveSkillCentralPath(ToRelativeCentralPath(full, centralDir), centralDir, onDisk) != full
  {
    StoredWithSlash();
    ResolveTwoNames(onDisk);
  }

  lemma StoredWithSlash()
    ensures ToRelativeCentralPath([RootDir, Normal("c")] + [Normal("a\\b")], [RootDir, Normal("c")]) == "a/b"
  {
    var centralDir := [RootDir, Normal("c")];
    var full := centralDir + [Normal("a\\b")];
    assert full[|centralDir|..] == [Normal("a\\b")];
    assert Render([Normal("a\\b")]) == "a\\b" by {
      assert Texts([Normal("a\\b")]) == ["a\\b"];
    }
    var r := ReplaceBackslash("a\\b");
    assert r[0] == 'a' && r[1] == '/' && r[2] == 'b';
    assert r == "a/b";
  }

  lemma ResolveTwoNames(onDisk: bool)
    ensures ResolveSkillCentralPath("a/b", [RootDir, Normal("c")], onDisk) == [RootDir, Normal("c"), Normal("a"), Normal("b")]
  {
    var two := [Normal("a"), Normal("b")];
    assert Texts(two) == ["a", "b"];
    assert JoinWith(["a", "b"], '/') == "a/b";
    ParseRender(two);
    assert "a/b"[0] == 'a' && "a/b"[1] == '/';
  }

  /** The stored form the round trip needs: the components below the
      repository joined with `/`, names kept as they are. This is what the
      `\`-to-`/` replacement achieves for Windows separators; on a Unix host
      the components are already joined with `/`. When that text would read
      as a Windows drive path (a first directory named `C:`), a leading `./`
      keeps it from being taken for a legacy absolute path; `Path::join`
      drops that `.` again. */
  function ToRelativeCentralPathPortable(absolutePath: Path, centralDir: Path): (r: string)
    ensures WellFormed(absolutePath) && centralDir <= absolutePath ==>
      var rel := absolutePath[|centralDir|..];
      Parse(r) == rel || Parse(r) == [CurDir] + rel
    ensures WellFormed(absolutePath) && centralDir <= absolutePath && !IsAbsolute(absolutePath[|centralDir|..]) ==>
      !IsAnyPlatformAbsolute(r)
    ensures centralDir <= absolutePath && !IsAnyPlatformAbsolute(Render(absolutePath[|centralDir|..])) ==>
      r == Render(absolutePath[|centralDir|..])
    ensures !(centralDir <= absolutePath) ==> r == ToRelativeCentralPath(absolutePath, centralDir)
  {
    match StripPrefix(absolutePath, centralDir)
    case Some(rel) =>
      assert rel == absolutePath[|centralDir|..];
      assert WellFormed(absolutePath) ==> WellFormed(rel) by {
        if WellFormed(absolutePath) {
          assert forall i :: 0 <= i < |rel| ==> rel[i] == absolutePath[|centralDir| + i];
        }
      }
      var s := Render(rel);
      if IsAnyPlatformAbsolute(s) && !IsAbsolute(rel) then
        assert WellFormed(absolutePath) ==>
          (Parse(Render([CurDir] + rel)) == [CurDir] + rel && !IsAnyPlatformAbsolute(Render([CurDir] + rel))) by {
          if WellFormed(absolutePath) {
            DriveLookingStartsWithName(rel);
            assert WellFormed([CurDir] + rel);
            ParseRenderCurDir([CurDir] + rel);
            DotLedNotAbsolute([CurDir] + rel);
          }
        }
        Render([CurDir] + rel)
      else
        assert WellFormed(absolutePath) ==> Parse(s) == rel by {
          if WellFormed(absolutePath) {
            ParseRender(rel);
          }
        }
        s
    case None => ToRelativeCentralPath(absolutePath, centralDir)
  }

  /** A relative well-formed path whose text looks absolute starts with a
      normal name, since `.` and `..` make the text start with `.`. */
  lemma DriveLookingStartsWithName(rel: Path)
    requires WellFormed(rel) && !IsAbsolute(rel) && IsAnyPlatformAbsolute(Render(rel))
    ensures |rel| > 0 && rel[0].Normal?
  {
    assert Render([]) == "";
    if rel[0] == CurDir || rel[0] == ParentDir {
      DotLedNotAbsolute(rel);
    }
  }

  /** The text of a path led by `.` or `..` starts with `.`, so it is never
      taken for an absolute path. */
  lemma DotLedNotAbsolute(p: Path)
    requires |p| > 0 && (p[0] == CurDir || p[0] == ParentDir)
    ensures !IsAnyPlatformAbsolute(Render(p))
  {
    var t := Texts(p);
    assert t[0] == "." || t[0] == "..";
    if |t| > 1 {
      assert JoinWith(t, '/') == t[0] + ['/'] + JoinWith(t[1..], '/');
    }
    assert Render(p)[0] == '.';
  }

  /** With the portable stored form, every skill directory below the
      repository round-trips, whatever characters its names hold, as long
      as the stored text does not look like an absolute path. */
  lemma StoreThenResolvePortable(centralDir: Path, rel: Path, onDisk: bool)
    requires WellFormed(centralDir)
    requires |rel| > 0 && forall i :: 0 <= i < |rel| ==> rel[i].Normal? && ValidName(rel[i].name)
    requires !IsAnyPlatformAbsolute(Render(rel))
    ensures ResolveSkillCentralPath(ToRelativeCentralPathPortable(centralDir + rel, centralDir), centralDir, onDisk)
         == centralDir + rel
  {
    var full := centralDir + rel;
    assert full[|centralDir|..] == rel;
    assert WellFormed(rel);
    assert ToRelativeCentralPathPortable(full, centralDir) == Render(rel);
    ParseRender(rel);
  }

  /** The name that defeats `ToRelativeCentralPath` round-trips here. */
  lemma BackslashNameRoundTripsPortably(onDisk: bool)
    ensures var centralDir := [RootDir, Normal("c")];
            var full := centralDir + [Normal("a\\b")];
            ResolveSkillCentralPath(ToRelativeCentralPathPortable(full, centralDir), centralDir, onDisk) == full
  {
    assert Render([Normal("a\\b")]) == "a\\b" by {
      assert Texts([Normal("a\\b")]) == ["a\\b"];
    }
    assert "a\\b"[0] == 'a' && "a\\b"[1] == '\\';
    StoreThenResolvePortable([RootDir, Normal("c")], [Normal("a\\b")], onDisk);
  }

  /** With the portable stored form, every skill directory below a
      non-empty repository path round-trips, whatever its names are,
      including a first directory named like a drive (`C:`). */
  lemma StoreThenResolvePortableAnyName(centralDir: Path, rel: Path, onDisk: bool)
    requires WellFormed(centralDir) && centralDir != []
    requires |rel| > 0 && forall i :: 0 <= i < |rel| ==> rel[i].Normal? && ValidName(rel[i].name)
    ensures ResolveSkillCentralPath(ToRelativeCentralPathPortable(centralDir + rel, centralDir), centralDir, onDisk)
         == centralDir + rel
  {
    var full := centralDir + rel;
    assert full[|centralDir|..] == rel;
    assert WellFormed(full);
    var r := ToRelativeCentralPathPortable(full, centralDir);
    assert !IsAnyPlatformAbsolute(r);
    assert Parse(r) == rel || Parse(r) == [CurDir] + rel;
  }

  // ---------------------------------------------------------------------
  // The stored text of a first directory named like a drive
  // ---------------------------------------------------------------------

  /** A directory named `C:` is an ordinary name on a Unix host.
      `to_relative_central_path` stores `/c/C:/x` as `C:/x`, which
      `resolve_skill_central_path` takes for a Windows drive path and reduces
      to its last name: the stored skill is read back as `/c/x`. */
  lemma DriveNameDoesNotRoundTrip(onDisk: bool)
    ensures var centralDir := [RootDir, Normal("c")];
            var full := centralDir + [Normal("C:"), Normal("x")];
            && ToRelativeCentralPath(full, centralDir) == "C:/x"
            && ResolveSkillCentralPath("C:/x", centralDir, onDisk) == centralDir + [Normal("x")]
            && ResolveSkillCentralPath(ToRelativeCentralPath(full, centralDir), centralDir, onDisk) != full
  {
    StoredDriveName();
    ResolveDriveText(onDisk);
  }

  lemma StoredDriveName()
    ensures ToRelativeCentralPath([RootDir, Normal("c")] + [Normal("C:"), Normal("x")], [RootDir, Normal("c")]) == "C:/x"
  {
    var centralDir := [RootDir, Normal("c")];
    var rel := [Normal("C:"), Normal("x")];
    assert (centralDir + rel)[|centralDir|..] == rel;
    assert Texts(rel) == ["C:", "x"];
    assert JoinWith(["C:", "x"], '/') == "C:/x";
    var s := "C:/x";
    assert s[0] == 'C' && s[1] == ':' && s[2] == '/' && s[3] == 'x';
    ReplaceBackslashIdentity(s);
  }

  lemma ResolveDriveText(onDisk: bool)
    ensures ResolveSkillCentralPath("C:/x", [RootDir, Normal("c")], onDisk) == [RootDir, Normal("c"), Normal("x")]
  {
    var s := "C:/x";
    assert s[0] == 'C' && s[1] == ':' && s[2] == '/' && s[3] == 'x';
    assert IsAnyPlatformAbsolute(s);
    SplitDriveText();
    assert LastNonEmpty(["C:", "x"]) == Some("x");
    assert LegacySkillName(s) == "x";
    LegacyPathResolvesInsideCentral(s, [RootDir, Normal("c")], onDisk);
  }

  lemma SplitDriveText()
    ensures SplitOn("C:/x", Separators) == ["C:", "x"]
  {
    assert 'x' !in Separators && ':' !in Separators && 'C' !in Separators && '/' in Separators;
    assert SplitOn("x", Separators) == ["x"] by {
      assert "x"[1..] == [] && SplitOn([], Separators) == [""];
      assert ['x'] + "" == "x";
    }
    assert SplitOn("/x", Separators) == ["", "x"] by {
      assert "/x"[0] == '/' && "/x"[1..] == "x";
    }
    assert SplitOn(":/x", Separators) == [":", "x"] by {
      assert ":/x"[0] == ':' && ":/x"[1..] == "/x";
      assert [':'] + "" == ":" && ["", "x"][1..] == ["x"];
    }
    assert "C:/x"[1..] == ":/x";
    assert ['C'] + ":" == "C:" && [":", "x"][1..] == ["x"];
  }

  /** The input that defeats `ToRelativeCentralPath` round-trips here: it is
      stored as `./C:/x`. */
  lemma DriveNameRoundTripsPortably(onDisk: bool)
    ensures var centralDir := [RootDir, Normal("c")];
            var full := centralDir + [Normal("C:"), Normal("x")];
            ResolveSkillCentralPath(ToRelativeCentralPathPortable(full, centralDir), centralDir, onDisk) == full
  {
    StoreThenResolvePortableAnyName([RootDir, Normal("c")], [Normal("C:"), Normal("x")], onDisk);
  }

  // ---------------------------------------------------------------------
  // expand_home_path
  // ---------------------------------------------------------------------

  const EmptyPathError: string := "storage path is empty"
  const NoHomeError: string := "failed to resolve home directory"

  /** `expand_home_path`, with the home directory (`dirs::home_dir`) passed
      in; `None` means it could not be determined. */
  function ExpandHomePath(input: string, home: Option<Path>): (r: Result<Path, string>)
    requires home.Some? ==> WellFormed(home.value)
    ensures r == Err(EmptyPathError) <==> IsBlank(input)
    ensures Trim(input) == "~" ==> r == (if home.Some? then Ok(home.value) else Err(NoHomeError))
    ensures "~/" <= Trim(input) ==>
      r == (if home.Some? then Ok(Join(home.value, Parse(Trim(input)[2..]))) else Err(NoHomeError))
    ensures !IsBlank(input) && Trim(input) != "~" && !("~/" <= Trim(input)) ==> r == Ok(Parse(Trim(input)))
  {
    var t := Trim(input);
    if t == [] then Err(EmptyPathError)
    else if t == "~" then
      if home.Some? then Ok(home.value) else Err(NoHomeError)
    else if "~/" <= t then
      if home.Some? then Ok(Join(home.value, Parse(t[2..]))) else Err(NoHomeError)
    else Ok(Parse(t))
  }

  /** Trimming happens before every check: surrounding whitespace never
      changes the expansion. */
  lemma ExpandIgnoresPadding(w1: string, s: string, w2: string, home: Option<Path>)
    requires AllWhitespace(w1) && AllWhitespace(w2)
    requires home.Some? ==> WellFormed(home.value)
    ensures ExpandHomePath(w1 + s + w2, home) == ExpandHomePath(s, home)
  {
    TrimIgnoresPadding(w1, s, w2);
  }

  /** `~/name` lands directly inside the home directory. */
  lemma ExpandTildeName(name: string, home: Path)
    requires WellFormed(home) && home != []
    requires ValidName(name) && !IsWhitespace(name[|name| - 1])
    ensures ExpandHomePath("~/" + name, Some(home)) == Ok(home + [Normal(name)])
  {
    var s := "~/" + name;
    assert s[0] == '~' && s[|s| - 1] == name[|name| - 1];
    TrimUnpadded(s);
    assert "~/" <= s && s != "~" && s != [];
    assert s[2..] == name;
    ParseName(name);
    assert Join(home, [Normal(name)]) == home + [Normal(name)];
  }
}
