/**
 The in-memory filesystem: a flat map from path strings to entries, plus a list of child names in
 every directory. Both describe one tree, and separate statements keep them in step.

 The operations mutate before they check: some calls leave the two descriptions in disagreement.
 Those calls are part of the model; for each operation it is proved for exactly which states and
 arguments the tree survives.
 */
module FsTree {
  import opened Prelude
  import opened Paths

  /** `children` is a JavaScript Set: no duplicates, in insertion order. */
  datatype Entry = Dir(children: seq<string>) | File(data: Bytes)

  datatype Outcome = Ok | ENOENT | ENOTDIR | EISDIR | ENOTEMPTY

  function Add(children: seq<string>, name: string): seq<string> {
    if name in children then children else children + [name]
  }

  function Remove(children: seq<string>, name: string): seq<string> {
    if children == [] then []
    else if children[0] == name then children[1..]
    else [children[0]] + Remove(children[1..], name)
  }

  predicate NoDuplicates(s: seq<string>) {
    forall i, j :: 0 <= i < j < |s| ==> s[i] != s[j]
  }

  lemma RestHasNoDuplicates(names: seq<string>)
    requires NoDuplicates(names) && names != []
    ensures NoDuplicates(names[1..]) && names[0] !in names[1..]
    ensures forall n :: n in names <==> n == names[0] || n in names[1..]
  {
    assert forall i :: 0 <= i < |names[1..]| ==> names[1..][i] == names[i + 1];
    assert names == [names[0]] + names[1..];
  }

  lemma PrependNoDuplicates(head: string, rest: seq<string>)
    requires NoDuplicates(rest) && head !in rest
    ensures NoDuplicates([head] + rest)
  {
  }

  lemma {:induction false} RemoveIsExact(children: seq<string>, name: string)
    requires NoDuplicates(children)
    ensures NoDuplicates(Remove(children, name))
    ensures forall c :: c in Remove(children, name) <==> c in children && c != name
  {
    if children == [] {
    } else {
      var head, rest := children[0], children[1..];
      assert children == [head] + rest;
      RestHasNoDuplicates(children);
      RemoveIsExact(rest, name);
      var left := Remove(rest, name);
      assert Remove(children, name) == if head == name then rest else [head] + left;
      assert head !in left;
      hide Remove, NoDuplicates;
      PrependNoDuplicates(head, left);
    }
  }

  // ---------------------------------------------------------------------------------------
  // The store, by path, and what each operation does to it
  // ---------------------------------------------------------------------------------------

  type Store = map<Path, Entry>

  /** `requireDir(path).children.add(name)` */
  function AddChild(m: Store, dir: Path, name: string): (Outcome, Store) {
    if dir !in m then (ENOENT, m)
    else if m[dir].File? then (ENOTDIR, m)
    else (Ok, m[dir := Dir(Add(m[dir].children, name))])
  }

  /** `requireDir(path).children.delete(name)` */
  function DeleteChild(m: Store, dir: Path, name: string): (Outcome, Store) {
    if dir !in m then (ENOENT, m)
    else if m[dir].File? then (ENOTDIR, m)
    else (Ok, m[dir := Dir(Remove(m[dir].children, name))])
  }

  function Mkdir(m: Store, p: Path, recursive: bool): (Outcome, Store)
    decreases |p|
  {
    if p == [] then (Ok, m)
    else if ParentOf(p) !in m && !recursive then (ENOENT, m)
    else
      var (o, m') := if ParentOf(p) in m then (Ok, m) else Mkdir(m, ParentOf(p), true);
      if o != Ok then (o, m')
      else if p in m' then (Ok, m')
      else AddChild(m'[p := Dir([])], ParentOf(p), BaseOf(p))
  }

  function WriteFile(m: Store, p: Path, data: Bytes): (Outcome, Store) {
    var (o, m') := Mkdir(m, ParentOf(p), true);
    if o != Ok then (o, m') else AddChild(m'[p := File(data)], ParentOf(p), BaseOf(p))
  }

  function ReadFile(m: Store, p: Path): (Outcome, Bytes) {
    if p !in m then (ENOENT, [])
    else if m[p].Dir? then (EISDIR, [])
    else (Ok, m[p].data)
  }

  function Unlink(m: Store, p: Path): (Outcome, Store) {
    if p !in m then (ENOENT, m)
    else if m[p].Dir? then (EISDIR, m)
    else DeleteChild(m - {p}, ParentOf(p), BaseOf(p))
  }

  function ReadDir(m: Store, p: Path): (Outcome, seq<string>) {
    if p !in m then (ENOENT, [])
    else if m[p].File? then (ENOTDIR, [])
    else (Ok, m[p].children)
  }

  function Rmdir(m: Store, p: Path): (Outcome, Store) {
    if p !in m then (ENOENT, m)
    else if m[p].File? then (ENOTDIR, m)
    else if |m[p].children| > 0 then (ENOTEMPTY, m)
    else DeleteChild(m - {p}, ParentOf(p), BaseOf(p))
  }

  // ---------------------------------------------------------------------------------------
  // The tree invariant and when operations keep it
  // ---------------------------------------------------------------------------------------

  ghost predicate IsDir(m: Store, p: Path) {
    p in m && m[p].Dir?
  }

  ghost predicate Lists(m: Store, p: Path)
    requires IsDir(m, p)
  {
    && NoDuplicates(m[p].children)
    && forall name :: name in m[p].children <==> p + [name] in m
  }

  /** The root is a directory, every other entry hangs from a directory, and every directory
      lists exactly the entries that hang from it. */
  ghost predicate IsTree(m: Store) {
    && IsDir(m, [])
    && (forall p :: p in m ==> IsPath(p))
    && (forall p :: p in m && p != [] ==> IsDir(m, ParentOf(p)))
    && (forall p :: IsDir(m, p) ==> Lists(m, p))
  }

  lemma ChildPath(p: Path, name: string)
    ensures ParentOf(p + [name]) == p && BaseOf(p + [name]) == name && p + [name] != []
  {
  }

  lemma PathChild(p: Path)
    requires p != []
    ensures ParentOf(p) + [BaseOf(p)] == p
  {
  }

  /** The nearest stored path at or above `p`. */
  function Ground(m: Store, p: Path): Path
    decreases |p|
  {
    if p in m || p == [] then p else Ground(m, ParentOf(p))
  }

  ghost predicate MkdirIsSafe(m: Store, p: Path, recursive: bool) {
    || p == []
    || IsDir(m, Ground(m, ParentOf(p)))
    || (!recursive && ParentOf(p) !in m)
  }

  ghost predicate WriteIsSafe(m: Store, p: Path) {
    && p != []
    && IsDir(m, Ground(m, ParentOf(p)))
    && !(IsDir(m, p) && m[p].children != [])
  }

  ghost predicate RmdirIsSafe(m: Store, p: Path) {
    !(p == [] && IsDir(m, []) && m[[]].children == [])
  }

  ghost predicate NothingBelow(m: Store, p: Path) {
    forall q :: q in m && q != [] ==> ParentOf(q) != p
  }

  /** Only a directory with children has entries below it. */
  lemma ChildlessHasNothingBelow(m: Store, p: Path)
    requires IsTree(m) && (p in m ==> m[p].File? || m[p].children == [])
    ensures NothingBelow(m, p)
  {
    forall q | q in m && q != [] ensures ParentOf(q) != p {
      PathChild(q);
      assert IsDir(m, ParentOf(q)) && Lists(m, ParentOf(q));
    }
  }

  /** A directory keeps listing its entries when its children and its entries change alike. */
  lemma ListsAgain(m: Store, m': Store, q: Path)
    requires IsDir(m, q) && Lists(m, q) && IsDir(m', q) && NoDuplicates(m'[q].children)
    requires forall n :: (n in m'[q].children <==> n in m[q].children) <==> (q + [n] in m' <==> q + [n] in m)
    ensures Lists(m', q)
  {
  }

  /** What the tree invariant says of one entry. */
  ghost predicate HangsRight(m: Store, q: Path) {
    && q in m && IsPath(q)
    && (q != [] ==> IsDir(m, ParentOf(q)))
    && (IsDir(m, q) ==> Lists(m, q))
  }

  lemma EntryOfTree(m: Store, q: Path)
    requires IsTree(m) && q in m
    ensures HangsRight(m, q)
  {
  }

  lemma TreeOfEntries(m: Store)
    requires IsDir(m, []) && forall q :: q in m ==> HangsRight(m, q)
    ensures IsTree(m)
  {
  }

  lemma ChildIs(p: Path, q: Path, n: string)
    requires p != []
    ensures q + [n] == p <==> q == ParentOf(p) && n == BaseOf(p)
  {
    ChildPath(q, n);
    PathChild(p);
  }

  lemma HangLists(m: Store, p: Path, e: Entry, q: Path)
    requires p != [] && IsDir(m, ParentOf(p)) && NothingBelow(m, p) && (e.File? || e.children == [])
    requires q != p ==> IsDir(m, q) && Lists(m, q)
    requires IsDir(AddChild(m[p := e], ParentOf(p), BaseOf(p)).1, q)
    ensures Lists(AddChild(m[p := e], ParentOf(p), BaseOf(p)).1, q)
  {
    var m' := AddChild(m[p := e], ParentOf(p), BaseOf(p)).1;
    if q == p {
      assert m'[p] == e && e.children == [];
      forall n ensures q + [n] !in m' { ChildPath(q, n); }
    } else {
      hide NothingBelow;
      forall n ensures q + [n] == p <==> q == ParentOf(p) && n == BaseOf(p) { ChildIs(p, q, n); }
      hide ParentOf, BaseOf;
      ListsAgain(m, m', q);
    }
  }

  lemma HangEntry(m: Store, p: Path, e: Entry, q: Path)
    requires p != [] && IsPath(p) && IsDir(m, ParentOf(p)) && NothingBelow(m, p) && (e.File? || e.children == [])
    requires q == p || HangsRight(m, q)
    ensures HangsRight(AddChild(m[p := e], ParentOf(p), BaseOf(p)).1, q)
  {
    hide IsPath;
    PathChild(p);
    var m' := AddChild(m[p := e], ParentOf(p), BaseOf(p)).1;
    assert q != [] ==> IsDir(m', ParentOf(q));
    hide Lists, NothingBelow;
    if IsDir(m', q) { HangLists(m, p, e, q); }
  }

  /** Hanging a new entry below a directory. */
  lemma Hang(m: Store, p: Path, e: Entry)
    requires IsTree(m) && p != [] && IsPath(p) && IsDir(m, ParentOf(p))
    requires e.File? || e.children == []
    requires p in m ==> m[p].File? || m[p].children == []
    ensures AddChild(m[p := e], ParentOf(p), BaseOf(p)).0 == Ok
    ensures IsTree(AddChild(m[p := e], ParentOf(p), BaseOf(p)).1)
  {
    ChildlessHasNothingBelow(m, p);
    assert IsDir(m, []);
    hide IsTree, IsPath, HangsRight, Lists, NothingBelow, Add;
    PathChild(p);
    var m' := AddChild(m[p := e], ParentOf(p), BaseOf(p)).1;
    forall q | q in m' ensures HangsRight(m', q) {
      if q != p { EntryOfTree(m, q); }
      HangEntry(m, p, e, q);
    }
    TreeOfEntries(m');
  }

  lemma UnhangLists(m: Store, p: Path, q: Path)
    requires p != [] && p in m && IsDir(m, ParentOf(p)) && IsDir(m, q) && Lists(m, q)
    requires IsDir(DeleteChild(m - {p}, ParentOf(p), BaseOf(p)).1, q)
    ensures Lists(DeleteChild(m - {p}, ParentOf(p), BaseOf(p)).1, q)
  {
    var m' := DeleteChild(m - {p}, ParentOf(p), BaseOf(p)).1;
    RemoveIsExact(m[q].children, BaseOf(p));
    forall n ensures q + [n] == p <==> q == ParentOf(p) && n == BaseOf(p) { ChildIs(p, q, n); }
    assert q + [BaseOf(p)] in m ==> BaseOf(p) in m[q].children;
    hide ParentOf, BaseOf, Remove, NoDuplicates;
    ListsAgain(m, m', q);
  }

  lemma UnhangEntry(m: Store, p: Path, q: Path)
    requires p != [] && p in m && IsDir(m, ParentOf(p)) && NothingBelow(m, p) && q != p && HangsRight(m, q)
    ensures HangsRight(DeleteChild(m - {p}, ParentOf(p), BaseOf(p)).1, q)
  {
    hide IsPath;
    PathChild(p);
    var m' := DeleteChild(m - {p}, ParentOf(p), BaseOf(p)).1;
    assert q != [] ==> IsDir(m', ParentOf(q));
    hide NothingBelow;
    if IsDir(m', q) { UnhangLists(m, p, q); }
  }

  /** Taking away a leaf: a file or an empty directory below the root. */
  lemma Unhang(m: Store, p: Path)
    requires IsTree(m) && p != [] && p in m && (m[p].File? || m[p].children == [])
    ensures DeleteChild(m - {p}, ParentOf(p), BaseOf(p)).0 == Ok
    ensures IsTree(DeleteChild(m - {p}, ParentOf(p), BaseOf(p)).1)
  {
    ChildlessHasNothingBelow(m, p);
    assert IsDir(m, []) && IsDir(m, ParentOf(p));
    hide IsTree, IsPath, HangsRight, Lists, NothingBelow, Remove;
    PathChild(p);
    var m' := DeleteChild(m - {p}, ParentOf(p), BaseOf(p)).1;
    forall q | q in m' ensures HangsRight(m', q) {
      EntryOfTree(m, q);
      UnhangEntry(m, p, q);
    }
    TreeOfEntries(m');
  }

  lemma {:induction false} GroundIsStored(m: Store, p: Path)
    requires IsDir(m, [])
    ensures Ground(m, p) in m && Ground(m, p) <= p
    ensures p !in m ==> Ground(m, p) != p
    decreases |p|
  {
    if p in m || p == [] {
    } else {
      GroundIsStored(m, ParentOf(p));
    }
  }

  /** In a tree, whatever is stored hangs from directories all the way up. */
  lemma StoredHasDirAbove(m: Store, p: Path)
    requires IsTree(m) && p in m && p != []
    ensures IsDir(m, Ground(m, ParentOf(p)))
  {
  }

  /** Creating ancestors of `p` does not touch `p` itself. */
  lemma {:induction false} MkdirKeepsOthers(m: Store, dir: Path, p: Path)
    requires |dir| < |p|
    ensures var m' := Mkdir(m, dir, true).1;
            (p in m' <==> p in m) && (p in m ==> m'[p] == m[p])
    decreases |dir|
  {
    if dir == [] || ParentOf(dir) in m {
    } else {
      MkdirKeepsOthers(m, ParentOf(dir), p);
    }
  }

  /** Recursive `mkdir` above ground that is a directory succeeds and keeps the tree. */
  lemma {:induction false} MkdirKeepsTree(m: Store, p: Path, recursive: bool)
    requires IsTree(m) && IsPath(p) && MkdirIsSafe(m, p, recursive)
    ensures IsTree(Mkdir(m, p, recursive).1)
    ensures Mkdir(m, p, recursive).0 == Ok <==> p == [] || recursive || ParentOf(p) in m
    ensures Mkdir(m, p, recursive).0 == Ok ==> p in Mkdir(m, p, recursive).1
    ensures p !in m && Mkdir(m, p, recursive).0 == Ok ==> IsDir(Mkdir(m, p, recursive).1, p)
    ensures p in m && Mkdir(m, p, recursive).0 == Ok ==> Mkdir(m, p, recursive).1 == m
    decreases |p|
  {
    if p == [] {
    } else {
      if ParentOf(p) in m {
        if p !in m { Hang(m, p, Dir([])); }
      } else if recursive {
        MkdirKeepsTree(m, ParentOf(p), true);
        MkdirKeepsOthers(m, ParentOf(p), p);
        Hang(Mkdir(m, ParentOf(p), true).1, p, Dir([]));
      }
    }
  }

  /** Above a file, `mkdir` leaves a directory hanging from that file. */
  lemma {:induction false} MkdirBelowFileBreaks(m: Store, p: Path, recursive: bool)
    requires IsTree(m) && IsPath(p) && !MkdirIsSafe(m, p, recursive)
    ensures Mkdir(m, p, recursive).0 == ENOTDIR && !IsTree(Mkdir(m, p, recursive).1)
    decreases |p|
  {
    GroundIsStored(m, ParentOf(p));
    if ParentOf(p) in m {
      assert p !in m;
      var m' := Mkdir(m, p, recursive).1;
      assert p in m' && !IsDir(m', ParentOf(p));
    } else {
      MkdirBelowFileBreaks(m, ParentOf(p), true);
    }
  }

  /** `mkdir` keeps the tree exactly when nothing it creates would hang from a file. */
  lemma MkdirSafety(m: Store, p: Path, recursive: bool)
    requires IsTree(m) && IsPath(p)
    ensures IsTree(Mkdir(m, p, recursive).1) <==> MkdirIsSafe(m, p, recursive)
  {
    if MkdirIsSafe(m, p, recursive) { MkdirKeepsTree(m, p, recursive); } else { MkdirBelowFileBreaks(m, p, recursive); }
  }

  lemma StoredIsSafe(m: Store, p: Path)
    requires IsTree(m) && p in m
    ensures MkdirIsSafe(m, p, true)
  {
    if p != [] { StoredHasDirAbove(m, p); }
  }

  lemma ParentIsSafe(m: Store, p: Path)
    requires IsTree(m) && p != [] && IsDir(m, Ground(m, ParentOf(p)))
    ensures MkdirIsSafe(m, ParentOf(p), true)
  {
    if ParentOf(p) in m { StoredIsSafe(m, ParentOf(p)); }
  }

  /** `writeFile` keeps the tree exactly when the target is not the root, hangs from no file, and
      is no directory with children; it then succeeds. */
  lemma WriteSafety(m: Store, p: Path, data: Bytes)
    requires IsTree(m) && IsPath(p)
    ensures IsTree(WriteFile(m, p, data).1) <==> WriteIsSafe(m, p)
    ensures WriteIsSafe(m, p) ==> WriteFile(m, p, data).0 == Ok
  {
    var m1 := Mkdir(m, ParentOf(p), true).1;
    var m' := WriteFile(m, p, data).1;
    if p == [] {
      assert m' == m[[] := File(data)];
      assert !IsDir(m', []);
    } else if !IsDir(m, Ground(m, ParentOf(p))) {
      if ParentOf(p) in m {
        MkdirKeepsTree(m, ParentOf(p), true) by { StoredIsSafe(m, ParentOf(p)); }
        assert m1 == m;
        assert p in m' && !IsDir(m', ParentOf(p));
      } else {
        MkdirBelowFileBreaks(m, ParentOf(p), true);
      }
    } else {
      ParentIsSafe(m, p);
      MkdirKeepsTree(m, ParentOf(p), true);
      MkdirKeepsOthers(m, ParentOf(p), p);
      assert IsDir(m1, ParentOf(p));
      if IsDir(m, p) && m[p].children != [] {
        var name := m[p].children[0];
        assert Lists(m, p) && name in m[p].children;
        ChildPath(p, name);
        assert p in m && ParentOf(p) in m && m1 == m;
        assert p + [name] in m' && !IsDir(m', p);
      } else {
        Hang(m1, p, File(data));
      }
    }
  }

  /** `unlink` always keeps the tree. */
  lemma UnlinkSafety(m: Store, p: Path)
    requires IsTree(m)
    ensures IsTree(Unlink(m, p).1)
    ensures Unlink(m, p).0 == Ok <==> p in m && m[p].File?
  {
    if p in m && m[p].File? { Unhang(m, p); }
  }

  /** `rmdir` keeps the tree except on an empty root. */
  lemma RmdirSafety(m: Store, p: Path)
    requires IsTree(m)
    ensures IsTree(Rmdir(m, p).1) <==> RmdirIsSafe(m, p)
    ensures RmdirIsSafe(m, p) ==> (Rmdir(m, p).0 == Ok <==> IsDir(m, p) && m[p].children == [])
  {
    if IsDir(m, p) && m[p].children == [] {
      if p == [] {
        assert [] !in Rmdir(m, p).1;
      } else {
        Unhang(m, p);
      }
    }
  }

  // ---------------------------------------------------------------------------------------
  // Whole runs
  // ---------------------------------------------------------------------------------------

  datatype Op =
    | MkdirOp(path: string, recursive: bool)
    | WriteOp(path: string, data: Bytes)
    | UnlinkOp(path: string)
    | RmdirOp(path: string)

  function Apply(m: Store, op: Op): Store {
    match op
    case MkdirOp(path, recursive) => Mkdir(m, Segments(path), recursive).1
    case WriteOp(path, data) => WriteFile(m, Segments(path), data).1
    case UnlinkOp(path) => Unlink(m, Segments(path)).1
    case RmdirOp(path) => Rmdir(m, Segments(path)).1
  }

  ghost predicate IsSafe(m: Store, op: Op) {
    match op
    case MkdirOp(path, recursive) => MkdirIsSafe(m, Segments(path), recursive)
    case WriteOp(path, _) => WriteIsSafe(m, Segments(path))
    case UnlinkOp(_) => true
    case RmdirOp(path) => RmdirIsSafe(m, Segments(path))
  }

  function Run(m: Store, ops: seq<Op>): Store
    decreases |ops|
  {
    if ops == [] then m else Run(Apply(m, ops[0]), ops[1..])
  }

  ghost predicate RunIsSafe(m: Store, ops: seq<Op>)
    decreases |ops|
  {
    ops == [] || (IsSafe(m, ops[0]) && RunIsSafe(Apply(m, ops[0]), ops[1..]))
  }

  const EMPTY: Store := map[[] := Dir([])]

  /** One call keeps a tree a tree exactly when it is safe. */
  lemma StepKeepsTreeIffSafe(m: Store, op: Op)
    requires IsTree(m)
    ensures IsTree(Apply(m, op)) <==> IsSafe(m, op)
  {
    SegmentsArePaths(op.path);
    match op
    case MkdirOp(path, recursive) => MkdirSafety(m, Segments(path), recursive);
    case WriteOp(path, data) => WriteSafety(m, Segments(path), data);
    case UnlinkOp(path) => UnlinkSafety(m, Segments(path));
    case RmdirOp(path) => RmdirSafety(m, Segments(path));
  }

  /** Every prefix of a run shows a tree exactly when every call of the run is safe. */
  lemma {:induction false} RunKeepsTreeIffSafe(m: Store, ops: seq<Op>)
    requires IsTree(m)
    ensures RunIsSafe(m, ops) <==> forall i :: 0 <= i <= |ops| ==> IsTree(Run(m, ops[..i]))
    decreases |ops|
  {
    if ops == [] {
    } else {
      var m', rest := Apply(m, ops[0]), ops[1..];
      StepKeepsTreeIffSafe(m, ops[0]);
      assert ops[..0] == [];
      forall i | 0 <= i <= |rest| ensures Run(m, ops[..i + 1]) == Run(m', rest[..i]) {
        assert ops[..i + 1][1..] == rest[..i];
      }
      if IsSafe(m, ops[0]) {
        RunKeepsTreeIffSafe(m', rest);
        if RunIsSafe(m', rest) {
          forall i | 0 < i <= |ops| ensures IsTree(Run(m, ops[..i])) {
            assert Run(m, ops[..i - 1 + 1]) == Run(m', rest[..i - 1]);
          }
        } else {
          var i :| 0 <= i <= |rest| && !IsTree(Run(m', rest[..i]));
          assert Run(m, ops[..i + 1]) == Run(m', rest[..i]);
        }
      } else {
        assert rest[..0] == [];
        assert Run(m, ops[..0 + 1]) == Run(m', rest[..0]);
      }
    }
  }

  lemma EmptyIsTree()
    ensures IsTree(EMPTY)
  {
    assert forall name: string :: [] + [name] != [];
  }

  // ---------------------------------------------------------------------------------------
  // Refinement of a tree of folders and contents, without child lists
  // ---------------------------------------------------------------------------------------

  datatype Node = Folder | Content(data: Bytes)

  type Shape = map<Path, Node>

  function NodeOf(e: Entry): Node {
    if e.Dir? then Folder else Content(e.data)
  }

  function ShapeOf(m: Store): Shape {
    map p | p in m :: NodeOf(m[p])
  }

  /** `m` with a folder at `p` and at each ancestor where nothing is stored. */
  function WithFolders(m: Shape, p: Path): Shape
    decreases |p|
  {
    if p in m then m
    else if p == [] then m[p := Folder]
    else WithFolders(m, ParentOf(p))[p := Folder]
  }

  lemma AddChildKeepsShape(m: Store, dir: Path, name: string)
    ensures ShapeOf(AddChild(m, dir, name).1) == ShapeOf(m)
    ensures ShapeOf(DeleteChild(m, dir, name).1) == ShapeOf(m)
  {
  }

  lemma HangShape(m: Store, p: Path, e: Entry)
    ensures ShapeOf(AddChild(m[p := e], ParentOf(p), BaseOf(p)).1) == ShapeOf(m)[p := NodeOf(e)]
  {
    AddChildKeepsShape(m[p := e], ParentOf(p), BaseOf(p));
    assert ShapeOf(m[p := e]) == ShapeOf(m)[p := NodeOf(e)];
  }

  lemma UnhangShape(m: Store, p: Path)
    ensures ShapeOf(DeleteChild(m - {p}, ParentOf(p), BaseOf(p)).1) == ShapeOf(m) - {p}
  {
    AddChildKeepsShape(m - {p}, ParentOf(p), BaseOf(p));
    assert ShapeOf(m - {p}) == ShapeOf(m) - {p};
  }

  lemma {:induction false} MkdirRefines(m: Store, p: Path, recursive: bool)
    requires IsTree(m) && IsPath(p) && MkdirIsSafe(m, p, recursive)
    ensures ShapeOf(Mkdir(m, p, recursive).1)
         == if p == [] || recursive || ParentOf(p) in m then WithFolders(ShapeOf(m), p) else ShapeOf(m)
    decreases |p|
  {
    if p == [] || p in m {
    } else {
      var dir := ParentOf(p);
      if dir in m {
        HangShape(m, p, Dir([]));
      } else if recursive {
        MkdirRefines(m, dir, true);
        MkdirKeepsTree(m, dir, true);
        MkdirKeepsOthers(m, dir, p);
        HangShape(Mkdir(m, dir, true).1, p, Dir([]));
      }
    }
  }

  /** A safe `writeFile` puts the contents at the target and folders above it. */
  lemma WriteRefines(m: Store, p: Path, data: Bytes)
    requires IsTree(m) && IsPath(p) && WriteIsSafe(m, p)
    ensures ShapeOf(WriteFile(m, p, data).1) == WithFolders(ShapeOf(m), ParentOf(p))[p := Content(data)]
  {
    ParentIsSafe(m, p);
    MkdirRefines(m, ParentOf(p), true);
    MkdirKeepsTree(m, ParentOf(p), true);
    HangShape(Mkdir(m, ParentOf(p), true).1, p, File(data));
  }

  /** Every safe call does to folders and contents just what its name says. */
  lemma StepRefines(m: Store, op: Op)
    requires IsTree(m) && IsSafe(m, op)
    ensures var p, before, after := Segments(op.path), ShapeOf(m), ShapeOf(Apply(m, op));
            match op
            case MkdirOp(_, recursive) =>
              after == if p == [] || recursive || ParentOf(p) in m then WithFolders(before, p) else before
            case WriteOp(_, data) => after == WithFolders(before, ParentOf(p))[p := Content(data)]
            case UnlinkOp(_) => after == if p in m && m[p].File? then before - {p} else before
            case RmdirOp(_) => after == if p in m && m[p].Dir? && m[p].children == [] then before - {p} else before
  {
    var p := Segments(op.path);
    SegmentsArePaths(op.path);
    match op
    case MkdirOp(_, recursive) => MkdirRefines(m, p, recursive);
    case WriteOp(_, data) => WriteRefines(m, p, data);
    case UnlinkOp(_) => UnhangShape(m, p);
    case RmdirOp(_) => UnhangShape(m, p);
  }

  lemma {:induction false} WithFoldersAddsOnly(m: Shape, p: Path, q: Path)
    ensures q in m ==> q in WithFolders(m, p) && WithFolders(m, p)[q] == m[q]
    ensures q !in m ==> (q in WithFolders(m, p) ==> q <= p && WithFolders(m, p)[q] == Folder)
    decreases |p|
  {
    if p in m || p == [] {
    } else {
      WithFoldersAddsOnly(m, ParentOf(p), q);
    }
  }

  lemma {:induction false} AncestorsAreStored(m: Store, p: Path, q: Path)
    requires IsTree(m) && p in m && q <= p
    ensures q in m
    decreases |p|
  {
    if p == q {
      assert q in m;
    } else {
      assert q <= ParentOf(p);
      AncestorsAreStored(m, ParentOf(p), q);
    }
  }

  /** In a tree, the folders `mkdir` makes sure of are exactly the target and its ancestors: what is
      stored stays as it is, and nothing else comes to be. */
  lemma {:induction false} WithFoldersExactly(m: Store, p: Path, q: Path)
    requires IsTree(m)
    ensures q in WithFolders(ShapeOf(m), p) <==> q in m || q <= p
    ensures q in WithFolders(ShapeOf(m), p) ==>
              WithFolders(ShapeOf(m), p)[q] == if q in m then NodeOf(m[q]) else Folder
    decreases |p|
  {
    if p in m {
      if q <= p { AncestorsAreStored(m, p, q); }
    } else {
      assert p != [];
      WithFoldersExactly(m, ParentOf(p), q);
      assert q <= p <==> q <= ParentOf(p) || q == p;
    }
  }

  lemma ReadsShape(m: Store, q: Path)
    ensures ReadFile(m, q) == if q !in ShapeOf(m) then (ENOENT, [])
                              else if ShapeOf(m)[q].Folder? then (EISDIR, [])
                              else (Ok, ShapeOf(m)[q].data)
  {
  }

  /** A read after a safe write returns the written bytes, and every other file, present or
      absent, reads as before; only missing ancestors of the target change, into directories. */
  lemma ReadAfterWrite(m: Store, path: string, data: Bytes, q: Path)
    requires IsTree(m) && WriteIsSafe(m, Segments(path))
    ensures var p, m' := Segments(path), WriteFile(m, Segments(path), data).1;
            && ReadFile(m', p) == (Ok, data)
            && (q != p ==> ReadFile(m', q) == ReadFile(m, q) || (q !in m && q < p && ReadFile(m', q) == (EISDIR, [])))
  {
    var p, m' := Segments(path), WriteFile(m, Segments(path), data).1;
    StepRefines(m, WriteOp(path, data));
    WithFoldersAddsOnly(ShapeOf(m), ParentOf(p), q);
    ReadsShape(m', p);
    ReadsShape(m', q);
    ReadsShape(m, q);
  }

  // ---------------------------------------------------------------------------------------
  // Answers and listings
  // ---------------------------------------------------------------------------------------

  /** What `readdir` answers in a tree: a listing exactly for a directory, naming exactly the entries
      that hang from it, each once. */
  lemma ReadDirMeans(m: Store, p: Path)
    requires IsTree(m)
    ensures ReadDir(m, p).0 == ENOENT <==> p !in m
    ensures ReadDir(m, p).0 == ENOTDIR <==> p in m && m[p].File?
    ensures ReadDir(m, p).0 == Ok <==> p in m && m[p].Dir?
    ensures ReadDir(m, p).0 == Ok ==> NoDuplicates(ReadDir(m, p).1)
    ensures ReadDir(m, p).0 == Ok ==> forall name :: name in ReadDir(m, p).1 <==> p + [name] in m
  {
    if IsDir(m, p) { assert Lists(m, p); }
  }

  lemma {:induction false} MkdirAnswers(m: Store, p: Path, recursive: bool)
    requires IsTree(m) && IsPath(p) && MkdirIsSafe(m, p, recursive)
    ensures Mkdir(m, p, recursive).0 == if p == [] || recursive || ParentOf(p) in m then Ok else ENOENT
    decreases |p|
  {
    MkdirKeepsTree(m, p, recursive);
    if p == [] || ParentOf(p) in m || !recursive {
    } else {
      MkdirAnswers(m, ParentOf(p), true);
    }
  }

  /** Why the other operations fail, in a tree. */
  lemma FailuresMean(m: Store, p: Path, recursive: bool, data: Bytes)
    requires IsTree(m) && IsPath(p)
    ensures ReadFile(m, p).0 == ENOENT <==> p !in m
    ensures ReadFile(m, p).0 == EISDIR <==> IsDir(m, p)
    ensures Unlink(m, p).0 == ENOENT <==> p !in m
    ensures Unlink(m, p).0 == EISDIR <==> IsDir(m, p)
    ensures Rmdir(m, p).0 == ENOTDIR <==> p in m && m[p].File?
    ensures Rmdir(m, p).0 == ENOTEMPTY <==> IsDir(m, p) && exists name :: p + [name] in m
    ensures p !in m ==> Rmdir(m, p).0 == ENOENT
    ensures Mkdir(m, p, recursive).0 == ENOENT <==> p != [] && ParentOf(p) !in m && !recursive
    ensures Mkdir(m, p, recursive).0 == ENOTDIR <==> !MkdirIsSafe(m, p, recursive)
  {
    if MkdirIsSafe(m, p, recursive) {
      MkdirKeepsTree(m, p, recursive);
      MkdirAnswers(m, p, recursive);
    } else {
      MkdirBelowFileBreaks(m, p, recursive);
    }
    if IsDir(m, p) {
      assert Lists(m, p);
      if m[p].children != [] { assert m[p].children[0] in m[p].children; }
      if p != [] { assert IsDir(m, ParentOf(p)); }
    }
    if p in m && p != [] { assert IsDir(m, ParentOf(p)); }
  }

  lemma AddedIsLast(m: Store, p: Path, e: Entry)
    requires p != [] && IsDir(m, ParentOf(p)) && (BaseOf(p) in m[ParentOf(p)].children <==> p in m)
    ensures ReadDir(AddChild(m[p := e], ParentOf(p), BaseOf(p)).1, ParentOf(p)) ==
              (Ok, ReadDir(m, ParentOf(p)).1 + if p in m then [] else [BaseOf(p)])
    ensures AddChild(m[p := e], ParentOf(p), BaseOf(p)).1[p] == e
  {
    assert |ParentOf(p)| < |p|;
    var names := m[ParentOf(p)].children;
    assert names + [] == names;
    hide ParentOf, BaseOf;
  }

  /** A new entry is listed last; writing over a file keeps the listing. */
  lemma NewNameComesLast(m: Store, p: Path, data: Bytes)
    requires IsTree(m) && IsPath(p) && p != [] && IsDir(m, ParentOf(p)) && (p in m ==> m[p].File?)
    ensures ReadDir(WriteFile(m, p, data).1, ParentOf(p)) ==
              (Ok, ReadDir(m, ParentOf(p)).1 + if p in m then [] else [BaseOf(p)])
    ensures p !in m ==>
              ReadDir(Mkdir(m, p, false).1, ParentOf(p)) == (Ok, ReadDir(m, ParentOf(p)).1 + [BaseOf(p)])
    ensures p !in m ==> ReadDir(Mkdir(m, p, false).1, p) == (Ok, [])
  {
    var dir := ParentOf(p);
    PathChild(p);
    StoredIsSafe(m, dir);
    MkdirKeepsTree(m, dir, true);
    assert Mkdir(m, dir, true) == (Ok, m) && Lists(m, dir);
    assert BaseOf(p) in m[dir].children <==> p in m;
    hide IsTree, IsPath, Lists, ParentOf, BaseOf, IsDir, NoDuplicates;
    AddedIsLast(m, p, File(data));
    AddedIsLast(m, p, Dir([]));
    hide AddChild;
  }

  /** Taking an entry away takes its name out of the listing and keeps the order of the others. */
  lemma {:induction false} RemoveKeepsOrder(children: seq<string>, name: string) returns (k: nat)
    requires name in children
    ensures k < |children| && children[k] == name && Remove(children, name) == children[..k] + children[k + 1..]
  {
    if children[0] == name {
      k := 0;
    } else {
      var j := RemoveKeepsOrder(children[1..], name);
      k := j + 1;
      assert children[..k] == [children[0]] + children[1..][..j];
    }
  }

  lemma GoneNameLeavesOrder(m: Store, p: Path) returns (k: nat)
    requires IsTree(m) && p in m && p != []
    requires Unlink(m, p).0 == Ok || Rmdir(m, p).0 == Ok
    ensures var names, m' := ReadDir(m, ParentOf(p)).1, if m[p].File? then Unlink(m, p).1 else Rmdir(m, p).1;
            && k < |names| && names[k] == BaseOf(p)
            && ReadDir(m', ParentOf(p)) == (Ok, names[..k] + names[k + 1..])
  {
    PathChild(p);
    assert IsDir(m, ParentOf(p)) && Lists(m, ParentOf(p));
    k := RemoveKeepsOrder(m[ParentOf(p)].children, BaseOf(p));
  }

  // ---------------------------------------------------------------------------------------
  // Walking the directory listings
  // ---------------------------------------------------------------------------------------

  ghost function Below(m: Store, p: Path): set<Path> {
    set q | q in m && p <= q
  }

  /** The depth-first walk a client does with `readdir`. */
  ghost function Walk(m: Store, p: Path): seq<Path>
    requires IsTree(m) && p in m
    decreases Below(m, p), 1, 0
  {
    var (outcome, names) := ReadDir(m, p);
    [p] + if outcome == Ok then assert Lists(m, p); WalkAll(m, p, names) else []
  }

  ghost function WalkAll(m: Store, p: Path, names: seq<string>): seq<Path>
    requires IsTree(m) && p in m && forall name :: name in names ==> p + [name] in m
    decreases Below(m, p), 0, |names|
  {
    if names == [] then []
    else
      assert p in Below(m, p) && p !in Below(m, p + [names[0]]);
      Walk(m, p + [names[0]]) + WalkAll(m, p, names[1..])
  }

  function Count(b: bool): nat {
    if b then 1 else 0
  }

  /** In a tree, a stored path below `p` runs through a directory at `p` and a stored child. */
  lemma {:induction false} BranchIsStored(m: Store, p: Path, q: Path)
    requires IsTree(m) && q in m && p < q
    ensures IsDir(m, p) && p + [q[|p|]] in m && p + [q[|p|]] <= q
    decreases |q|
  {
    PathChild(q);
    if |p| == |q| - 1 {
      assert p == ParentOf(q) && q == p + [q[|p|]];
    } else {
      assert p < ParentOf(q);
      BranchIsStored(m, p, ParentOf(q));
    }
  }

  lemma ThroughChild(p: Path, name: string, q: Path)
    ensures p + [name] <= q <==> p < q && q[|p|] == name
  {
    if p < q && q[|p|] == name { assert q[..|p| + 1] == p + [name]; }
  }

  lemma {:induction false} WalkCounts(m: Store, p: Path, q: Path)
    requires IsTree(m) && p in m
    ensures multiset(Walk(m, p))[q] == Count(q in m && p <= q)
    decreases Below(m, p), 1, 0
  {
    if q in m && p < q { BranchIsStored(m, p, q); }
    if m[p].Dir? {
      assert Lists(m, p);
      WalkAllCounts(m, p, m[p].children, q);
      hide IsTree;
      assert Walk(m, p) == [p] + WalkAll(m, p, m[p].children);
    }
    assert p <= q <==> p == q || p < q;
  }

  lemma {:induction false} WalkAllCounts(m: Store, p: Path, names: seq<string>, q: Path)
    requires IsTree(m) && p in m && NoDuplicates(names)
    requires forall name :: name in names ==> p + [name] in m
    ensures multiset(WalkAll(m, p, names))[q] == Count(q in m && p < q && q[|p|] in names)
    decreases Below(m, p), 0, |names|
  {
    if names == [] {
    } else {
      var first, rest := names[0], names[1..];
      assert p in Below(m, p) && p !in Below(m, p + [first]);
      WalkCounts(m, p + [first], q);
      RestHasNoDuplicates(names);
      WalkAllCounts(m, p, rest, q);
      hide IsTree, NoDuplicates;
      assert WalkAll(m, p, names) == Walk(m, p + [first]) + WalkAll(m, p, rest);
      ThroughChild(p, first, q);
    }
  }

  /** Walking the listings from the root reaches every stored entry exactly once. */
  lemma WalkReachesEachEntryOnce(m: Store)
    requires IsTree(m)
    ensures multiset(Walk(m, [])) == multiset(m.Keys)
  {
    forall q ensures multiset(Walk(m, []))[q] == multiset(m.Keys)[q] {
      WalkCounts(m, [], q);
    }
  }
}
