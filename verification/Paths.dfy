/** Path normalisation of the in-memory filesystem: strings in, lists of names out. */
module Paths {
  import opened Text

  /** A normalised path, from the root down; the root itself is the empty list. */
  type Path = seq<string>

  /** One part of a split path: skipped, a step back, or a step down. */
  function Follow(path: Path, part: string): Path {
    if part == "" || part == "." then path
    else if part == ".." then (if path == [] then [] else path[..|path| - 1])
    else path + [part]
  }

  function Resolve(path: Path, parts: seq<string>): Path
    decreases |parts|
  {
    if parts == [] then path else Resolve(Follow(path, parts[0]), parts[1..])
  }

  /** The names a path string denotes. */
  function Segments(input: string): Path {
    Resolve([], Split(input, '/'))
  }

  /** The string form of a path. */
  function Canon(path: Path): string {
    "/" + Join(path, '/')
  }

  predicate IsName(name: string) {
    name != "" && name != "." && name != ".." && '/' !in name
  }

  predicate IsPath(path: Path) {
    forall name :: name in path ==> IsName(name)
  }

  function ParentOf(path: Path): Path {
    if path == [] then [] else path[..|path| - 1]
  }

  function BaseOf(path: Path): string {
    if path == [] then "" else path[|path| - 1]
  }

  /** `normalize`: a stack of names, joined again. */
  method Normalize(input: string) returns (path: string)
    ensures path == Canon(Segments(input))
  {
    var segments: Path := [];
    var parts := Split(input, '/');
    for i := 0 to |parts|
      invariant Resolve([], parts) == Resolve(segments, parts[i..])
    {
      assert parts[i..][1..] == parts[i + 1..];
      if parts[i] == "" || parts[i] == "." {
        continue;
      }
      if parts[i] == ".." {
        if segments != [] { segments := segments[..|segments| - 1]; }
        continue;
      }
      segments := segments + [parts[i]];
    }
    path := "/" + Join(segments, '/');
  }

  function NonEmpty(parts: seq<string>): seq<string> {
    if parts == [] then []
    else (if parts[0] == "" then [] else [parts[0]]) + NonEmpty(parts[1..])
  }

  lemma {:induction false} SplitHasNoSeparator(s: string, sep: char)
    ensures forall p :: p in Split(s, sep) ==> sep !in p
  {
    if s == "" {
    } else {
      SplitHasNoSeparator(s[1..], sep);
    }
  }

  lemma {:induction false} ResolveKeepsPaths(path: Path, parts: seq<string>)
    requires IsPath(path) && forall p :: p in parts ==> '/' !in p
    ensures IsPath(Resolve(path, parts))
    decreases |parts|
  {
    if parts == [] {
    } else {
      ResolveKeepsPaths(Follow(path, parts[0]), parts[1..]);
    }
  }

  /** Whatever the input, only proper names are left. */
  lemma SegmentsArePaths(input: string)
    ensures IsPath(Segments(input))
  {
    SplitHasNoSeparator(input, '/');
    ResolveKeepsPaths([], Split(input, '/'));
  }

  lemma {:induction false} ResolveNames(path: Path, names: Path)
    requires IsPath(names)
    ensures Resolve(path, names) == path + names
    decreases |names|
  {
    if names == [] {
      assert path + names == path;
    } else {
      assert IsName(names[0]);
      ResolveNames(path + [names[0]], names[1..]);
      assert path + names == (path + [names[0]]) + names[1..];
    }
  }

  lemma {:induction false} NonEmptyNames(names: Path)
    requires IsPath(names)
    ensures NonEmpty(names) == names
  {
    if names == [] {
    } else {
      assert IsName(names[0]);
      NonEmptyNames(names[1..]);
    }
  }

  lemma RootSplits()
    ensures Canon([]) == "/" && Split("/", '/') == ["", ""]
    ensures NonEmpty(["", ""]) == [] && Resolve([], ["", ""]) == []
  {
    assert "/"[1..] == "" && ["", ""][1..] == [""] && [""][1..] == [];
    assert Split("", '/') == [""];
  }

  /** Splitting a canonical string gives the names back, behind one empty part. */
  lemma CanonSplits(path: Path)
    requires IsPath(path)
    ensures Canon(path) == "/" <==> path == []
    ensures NonEmpty(Split(Canon(path), '/')) == path
    ensures Segments(Canon(path)) == path
  {
    if path == [] {
      RootSplits();
    } else {
      SplitPiece("", Join(path, '/'), '/');
      assert Canon(path) == "" + "/" + Join(path, '/');
      forall p | p in path ensures '/' !in p { assert IsName(p); }
      SplitOfJoin(path, '/');
      var parts := Split(Canon(path), '/');
      assert parts == [""] + path && parts[1..] == path;
      assert IsName(path[0]);
      NonEmptyNames(path);
      ResolveNames([], path);
    }
  }

  /** `parent` */
  method Parent(path: string) returns (parent: string)
    ensures parent == Canon(ParentOf(Segments(path)))
  {
    var normalized := Normalize(path);
    SegmentsArePaths(path);
    CanonSplits(Segments(path));
    if normalized == "/" {
      return "/";
    }
    var parts := NonEmpty(Split(normalized, '/'));
    parts := parts[..|parts| - 1];
    parent := if |parts| > 0 then "/" + Join(parts, '/') else "/";
  }

  /** `basename` */
  method Basename(path: string) returns (name: string)
    ensures name == BaseOf(Segments(path))
  {
    var normalized := Normalize(path);
    SegmentsArePaths(path);
    CanonSplits(Segments(path));
    var parts := NonEmpty(Split(normalized, '/'));
    name := if parts == [] then "" else parts[|parts| - 1];
  }

  /** Canonical strings denote their path, so normalising twice is normalising once, and equal
      canonical strings are equal paths. */
  lemma NormalizeIdempotent(input: string)
    ensures Segments(Canon(Segments(input))) == Segments(input)
    ensures Canon(Segments(Canon(Segments(input)))) == Canon(Segments(input))
  {
    SegmentsArePaths(input);
    CanonSplits(Segments(input));
  }

  lemma CanonOfParent(p: Path)
    requires p != []
    requires var init := p[..|p| - 1];
             Join(p, '/') == (if init == [] then "" else Join(init, '/') + "/") + p[|p| - 1]
    ensures Canon(p) == (if ParentOf(p) == [] then "" else Canon(ParentOf(p))) + "/" + BaseOf(p)
    ensures ParentOf(p) + [BaseOf(p)] == p
  {
    hide Join;
  }

  lemma {:induction false} JoinLast(path: Path)
    requires path != []
    ensures var init := path[..|path| - 1];
            Join(path, '/') == (if init == [] then "" else Join(init, '/') + "/") + path[|path| - 1]
  {
    if |path| <= 1 {
    } else {
      JoinLast(path[1..]);
      assert path[..|path| - 1][1..] == path[1..][..|path| - 2];
    }
  }

  /** Joining parent and base name with a slash gives the normalised path back. */
  lemma ParentAndBasename(input: string)
    requires Segments(input) != []
    ensures var p := Segments(input);
            && Canon(p) == (if ParentOf(p) == [] then "" else Canon(ParentOf(p))) + "/" + BaseOf(p)
            && ParentOf(p) + [BaseOf(p)] == p
            && IsName(BaseOf(p))
  {
    SegmentsArePaths(input);
    var p := Segments(input);
    assert IsName(p[|p| - 1]);
    hide Segments, IsPath, IsName, Join;
    JoinLast(p);
    CanonOfParent(p);
  }

  lemma {:induction false} ResolveConcat(path: Path, first: seq<string>, second: seq<string>)
    ensures Resolve(path, first + second) == Resolve(Resolve(path, first), second)
    decreases |first|
  {
    if first == [] {
      assert first + second == second;
    } else {
      assert (first + second)[1..] == first[1..] + second;
      ResolveConcat(Follow(path, first[0]), first[1..], second);
    }
  }

  /** Resolution works left to right: a suffix is followed from where the prefix leads. */
  lemma SuffixIsFollowed(input: string, suffix: string)
    ensures Segments(input + "/" + suffix) == Resolve(Segments(input), Split(suffix, '/'))
  {
    SplitConcat(input, suffix, '/');
    ResolveConcat([], Split(input, '/'), Split(suffix, '/'));
  }

  /** So "." changes nothing, a name goes down, and ".." undoes the name before it. */
  lemma DotsAndNames(input: string, name: string)
    requires IsName(name)
    ensures Segments(input + "/" + ".") == Segments(input)
    ensures Segments(input + "/" + name) == Segments(input) + [name]
    ensures Segments(input + "/" + (name + "/" + "..")) == Segments(input)
  {
    hide Segments, Join;
    var here := Segments(input);
    SuffixIsFollowed(input, ".");
    SuffixIsFollowed(input, name);
    SuffixIsFollowed(input, name + "/" + "..");
    SplitWhole(".", '/');
    SplitWhole("..", '/');
    SplitWhole(name, '/');
    SplitPiece(name, "..", '/');
    hide Split;
    ResolveConcat(here, [name], [".."]);
    assert Follow(Follow(here, name), "..") == here;
  }

  lemma EmptyParts(path: Path, parts: seq<string>)
    ensures Resolve(path, [""] + parts) == Resolve(path, parts)
    ensures Resolve(path, [""]) == path && Split("", '/') == [""]
  {
    assert ([""] + parts)[1..] == parts;
  }

  lemma RootAlone()
    ensures Segments("") == Segments("/") == Segments("/..") == Segments("..") == []
  {
    SplitWhole("", '/');
    SplitWhole("..", '/');
    SplitPiece("", "", '/');
    SplitPiece("", "..", '/');
    assert "" + "/" + "" == "/" && "" + "/" + ".." == "/..";
    hide Split;
    assert Resolve([], [""]) == [] && Resolve([], [".."]) == [];
    assert [""] + [""] == ["", ""] && [""] + [".."] == ["", ".."];
    assert ["", ""][1..] == [""] && ["", ".."][1..] == [".."];
  }

  /** Slashes too many change nothing, and from the root there is no way up. */
  lemma SlashesAndRoot(input: string, suffix: string)
    ensures Segments(input + "/") == Segments(input)
    ensures Segments(input + "/" + ("/" + suffix)) == Segments(input + "/" + suffix)
    ensures Segments("") == Segments("/") == Segments("/..") == Segments("..") == []
    ensures Canon([]) == "/" && ParentOf([]) == [] && BaseOf([]) == ""
  {
    hide Segments;
    SuffixIsFollowed(input, "");
    assert input + "/" + "" == input + "/";
    SuffixIsFollowed(input, "/" + suffix);
    SuffixIsFollowed(input, suffix);
    SplitPiece("", suffix, '/');
    assert "" + "/" + suffix == "/" + suffix;
    EmptyParts(Segments(input), Split(suffix, '/'));
    RootAlone();
  }
}
