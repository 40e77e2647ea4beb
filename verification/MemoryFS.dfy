/** `MemoryFS`, the class: a map keyed by path strings, each operation refining `FsTree`. */
module MemoryFS {
  import opened Prelude
  import opened Paths
  import opened FsTree

  /** Every key is the normalised string of its path. */
  ghost predicate Canonical(entries: map<string, Entry>) {
    forall k :: k in entries ==> Canon(Segments(k)) == k
  }

  /** The store a keyed map stands for. */
  ghost function ViewOf(entries: map<string, Entry>): Store
    requires Canonical(entries)
  {
    map k | k in entries :: Segments(k) := entries[k]
  }

  lemma ViewAt(entries: map<string, Entry>, p: Path)
    requires Canonical(entries) && IsPath(p)
    ensures Canon(p) in entries <==> p in ViewOf(entries)
    ensures p in ViewOf(entries) ==> ViewOf(entries)[p] == entries[Canon(p)]
  {
    CanonSplits(p);
  }

  lemma ViewPut(entries: map<string, Entry>, p: Path, e: Entry)
    requires Canonical(entries) && IsPath(p)
    ensures Canonical(entries[Canon(p) := e]) && ViewOf(entries[Canon(p) := e]) == ViewOf(entries)[p := e]
  {
    CanonSplits(p);
    var entries' := entries[Canon(p) := e];
    forall q ensures q in ViewOf(entries') <==> q in ViewOf(entries)[p := e] {
      if q in ViewOf(entries) {
        var k :| k in entries && Segments(k) == q;
        assert k in entries';
      }
    }
  }

  lemma ViewDrop(entries: map<string, Entry>, p: Path)
    requires Canonical(entries) && IsPath(p)
    ensures Canonical(entries - {Canon(p)}) && ViewOf(entries - {Canon(p)}) == ViewOf(entries) - {p}
  {
    CanonSplits(p);
    var entries' := entries - {Canon(p)};
    forall q ensures q in ViewOf(entries') <==> q in ViewOf(entries) - {p} {
      if q in ViewOf(entries) && q != p {
        var k :| k in entries && Segments(k) == q;
        assert k in entries';
      }
    }
  }

  lemma SingleView(e: map<string, Entry>)
    requires "/" in e && (forall k :: k in e ==> k == "/") && Segments("/") == [] && Canon([]) == "/"
    requires e["/"] == Dir([])
    ensures Canonical(e) && ViewOf(e) == EMPTY
  {
    hide Canon, Segments;
    assert forall p :: p in ViewOf(e) <==> p == [];
  }

  lemma InitialView()
    ensures Canonical(map["/" := Dir([])]) && ViewOf(map["/" := Dir([])]) == EMPTY
  {
    hide Canon, Segments;
    CanonSplits([]);
    var e: map<string, Entry> := map["/" := Dir([])];
    assert "/" in e && forall k :: k in e ==> k == "/";
    SingleView(e);
  }

  class MemoryFS {
    var entries: map<string, Entry>

    ghost predicate Valid()
      reads this
    {
      Canonical(entries)
    }

    ghost function View(): Store
      reads this
      requires Valid()
    {
      ViewOf(entries)
    }

    constructor ()
      ensures Valid() && View() == EMPTY && IsTree(View())
    {
      entries := map["/" := Dir([])];
      InitialView();
      EmptyIsTree();
    }

    /** `requireDir(path).children.add(name)` */
    method AddName(path: string, name: string) returns (o: Outcome)
      requires Valid()
      modifies this
      ensures Valid() && (o, View()) == AddChild(old(View()), Segments(path), name)
    {
      var key := Normalize(path);
      SegmentsArePaths(path);
      ViewAt(entries, Segments(path));
      if key !in entries { return ENOENT; }
      if entries[key].File? { return ENOTDIR; }
      ViewPut(entries, Segments(path), Dir(Add(entries[key].children, name)));
      entries := entries[key := Dir(Add(entries[key].children, name))];
      o := Ok;
    }

    /** `requireDir(path).children.delete(name)` */
    method DeleteName(path: string, name: string) returns (o: Outcome)
      requires Valid()
      modifies this
      ensures Valid() && (o, View()) == DeleteChild(old(View()), Segments(path), name)
    {
      var key := Normalize(path);
      SegmentsArePaths(path);
      ViewAt(entries, Segments(path));
      if key !in entries { return ENOENT; }
      if entries[key].File? { return ENOTDIR; }
      ViewPut(entries, Segments(path), Dir(Remove(entries[key].children, name)));
      entries := entries[key := Dir(Remove(entries[key].children, name))];
      o := Ok;
    }

    method MakeDirectory(path: string, recursive: bool) returns (o: Outcome)
      requires Valid()
      modifies this
      ensures Valid() && (o, View()) == Mkdir(old(View()), Segments(path), recursive)
      decreases |Segments(path)|
    {
      var target := Normalize(path);
      NormalizeIdempotent(path);
      SegmentsArePaths(path);
      CanonSplits(Segments(path));
      if target == "/" { return Ok; }
      var parent := Parent(target);
      var name := Basename(target);
      ghost var p := Segments(path);
      CanonSplits(ParentOf(p));
      ViewAt(entries, ParentOf(p));
      if parent !in entries {
        if !recursive { return ENOENT; }
        o := MakeDirectory(parent, true);
        if o != Ok { return; }
      }
      ViewAt(entries, p);
      if target in entries { return Ok; }
      ViewPut(entries, p, Dir([]));
      entries := entries[target := Dir([])];
      o := AddName(parent, name);
    }

    method Write(path: string, data: Bytes) returns (o: Outcome)
      requires Valid()
      modifies this
      ensures Valid() && (o, View()) == WriteFile(old(View()), Segments(path), data)
    {
      var target := Normalize(path);
      NormalizeIdempotent(path);
      SegmentsArePaths(path);
      ghost var p := Segments(path);
      CanonSplits(ParentOf(p));
      var parent := Parent(target);
      o := MakeDirectory(parent, true);
      if o != Ok { return; }
      ViewPut(entries, p, File(data));
      entries := entries[target := File(data)];
      var name := Basename(target);
      o := AddName(parent, name);
    }

    method Read(path: string) returns (o: Outcome, data: Bytes)
      requires Valid()
      ensures (o, data) == ReadFile(View(), Segments(path))
    {
      var key := Normalize(path);
      SegmentsArePaths(path);
      ViewAt(entries, Segments(path));
      if key !in entries { return ENOENT, []; }
      if entries[key].Dir? { return EISDIR, []; }
      return Ok, entries[key].data;
    }

    method Delete(path: string) returns (o: Outcome)
      requires Valid()
      modifies this
      ensures Valid() && (o, View()) == Unlink(old(View()), Segments(path))
    {
      var target := Normalize(path);
      NormalizeIdempotent(path);
      SegmentsArePaths(path);
      ghost var p := Segments(path);
      CanonSplits(ParentOf(p));
      ViewAt(entries, p);
      if target !in entries { return ENOENT; }
      if entries[target].Dir? { return EISDIR; }
      ViewDrop(entries, p);
      entries := entries - {target};
      var parent := Parent(target);
      var name := Basename(target);
      o := DeleteName(parent, name);
    }

    method List(path: string) returns (o: Outcome, children: seq<string>)
      requires Valid()
      ensures (o, children) == ReadDir(View(), Segments(path))
    {
      var key := Normalize(path);
      SegmentsArePaths(path);
      ViewAt(entries, Segments(path));
      if key !in entries { return ENOENT, []; }
      if entries[key].File? { return ENOTDIR, []; }
      return Ok, entries[key].children;
    }

    method RemoveDirectory(path: string) returns (o: Outcome)
      requires Valid()
      modifies this
      ensures Valid() && (o, View()) == Rmdir(old(View()), Segments(path))
    {
      var target := Normalize(path);
      NormalizeIdempotent(path);
      SegmentsArePaths(path);
      ghost var p := Segments(path);
      CanonSplits(ParentOf(p));
      ViewAt(entries, p);
      if target !in entries { return ENOENT; }
      if entries[target].File? { return ENOTDIR; }
      if |entries[target].children| > 0 { return ENOTEMPTY; }
      ViewDrop(entries, p);
      entries := entries - {target};
      var parent := Parent(target);
      var name := Basename(target);
      o := DeleteName(parent, name);
    }
  }
}
