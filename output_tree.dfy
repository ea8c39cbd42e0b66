/**
 * The destination side of gather-docs: the tree under `src/content/docs/modules`,
 * as a map from relative paths to files and directories. The root `[]` is the
 * `modules` directory itself. Each Node.js call the script makes becomes a
 * state transition returning the new tree and whether the call succeeded; a
 * failed call is an exception that ends the run, and the tree keeps whatever
 * was written before it.
 */
module OutputTree {
  import opened Wrappers
  import opened FileTree

  datatype OutNode = OutFile(content: string) | OutDir

  type Tree = map<Path, OutNode>

  /** The tree after a filesystem call, and whether the call returned normally. */
  datatype Step = Step(tree: Tree, ok: bool)

  function Parent(p: Path): Path
    requires |p| > 0
  {
    p[..|p| - 1]
  }

  predicate IsDirIn(t: Tree, p: Path) {
    p in t && t[p] == OutDir
  }

  function Get(t: Tree, p: Path): Option<OutNode> {
    if p in t then Some(t[p]) else None
  }

  /** Every entry hangs under a directory, and the root is a directory. */
  predicate Valid(t: Tree) {
    && IsDirIn(t, [])
    && forall p :: p in t && |p| > 0 ==> IsDirIn(t, Parent(p))
  }

  /**
   * `writeFileSync` / `copyFileSync`: fails (ENOENT, ENOTDIR) unless the parent
   * is a directory, and (EISDIR) when `p` is a directory; otherwise overwrites.
   */
  function Written(t: Tree, p: Path, content: string): Step
    requires |p| > 0
  {
    if IsDirIn(t, Parent(p)) && !IsDirIn(t, p) then Step(t[p := OutFile(content)], true)
    else Step(t, false)
  }

  /** `mkdirSync(p)`: needs an existing parent directory and nothing at `p`. */
  function DirMade(t: Tree, p: Path): Step
    requires |p| > 0
  {
    if IsDirIn(t, Parent(p)) && p !in t then Step(t[p := OutDir], true)
    else Step(t, false)
  }

  /**
   * `mkdirSync(p, {recursive: true})`: succeeds without change on an existing
   * directory, fails (EEXIST, ENOTDIR) when a file is in the way.
   */
  function DirsMade(t: Tree, p: Path): Step
    decreases |p|
  {
    if p in t then Step(t, t[p] == OutDir)
    else if p == [] then Step(t[p := OutDir], true)
    else
      var up := DirsMade(t, Parent(p));
      if !up.ok then up else Step(up.tree[p := OutDir], true)
  }

  /** `copyRecursive(src, dest)` of gather-docs.ts, as a function of the tree before it. */
  function Copied(t: Tree, src: Node, dest: Path): Step
    requires |dest| > 0
    decreases src, 1
  {
    match src
    case File(content) => Written(t, dest, content)
    case Dir(children) =>
      var made := if dest in t then Step(t, true) else DirMade(t, dest);
      if !made.ok then made else CopiedFirst(made.tree, src, dest, |children|)
  }

  /** The `forEach` over `readdirSync(src)`, after its first `k` children. */
  function CopiedFirst(t: Tree, src: Node, dest: Path, k: nat): Step
    requires |dest| > 0 && src.Dir? && k <= |src.children|
    decreases src, 0, k
  {
    if k == 0 then Step(t, true)
    else
      var before := CopiedFirst(t, src, dest, k - 1);
      if !before.ok then before
      else Copied(before.tree, src.children[k - 1].node, dest + [src.children[k - 1].name])
  }

  /**
   * What a successful copy leaves at `p`: a source file's content where the
   * source has a file; for a source directory, whatever was already there, or a
   * new directory when nothing was; and the old entry (or its absence) wherever
   * the source has nothing.
   */
  ghost function OverlaidAt(t: Tree, src: Node, dest: Path, p: Path): Option<OutNode> {
    if dest <= p then
      match Lookup(src, p[|dest|..])
      case Some(File(content)) => Some(OutFile(content))
      case Some(Dir(_)) => if p in t then Some(t[p]) else Some(OutDir)
      case None => Get(t, p)
    else Get(t, p)
  }

  /** A path under `dest + [name]` is looked up in the source through the child `name`. */
  lemma LookupBelowChild(es: seq<Entry>, i: nat, dest: Path, p: Path)
    requires i < |es| && DistinctNames(es)
    requires dest + [es[i].name] <= p
    ensures dest <= p
    ensures Lookup(Dir(es), p[|dest|..]) == Lookup(es[i].node, p[|dest| + 1..])
  {
    var r := p[|dest|..];
    assert r[0] == es[i].name;
    ChildIndexOfDistinct(es, i);
    assert r[1..] == p[|dest| + 1..];
  }

  /** A path under `dest` but not under any of the children `es` finds nothing in the source. */
  lemma LookupOutsideChildren(es: seq<Entry>, dest: Path, p: Path)
    requires dest <= p && |p| > |dest|
    requires forall j :: 0 <= j < |es| ==> es[j].name != p[|dest|]
    ensures Lookup(Dir(es), p[|dest|..]) == None
  {
    assert p[|dest|..][0] == p[|dest|];
  }

  /** Dropping the last entry does not change where another name is found. */
  lemma ChildIndexDropLast(es: seq<Entry>, name: string)
    requires |es| > 0 && es[|es| - 1].name != name
    ensures ChildIndex(es, name) == ChildIndex(es[..|es| - 1], name)
  {
    var init := es[..|es| - 1];
    var r := ChildIndex(es, name);
    if r.Some? {
      assert r.value < |init|;
      FirstChildIndex(init, name, r.value);
    } else {
      forall j | 0 <= j < |init|
        ensures init[j].name != name
      {
        assert init[j] == es[j];
      }
      NoChildIndex(init, name);
    }
  }

  lemma NoChildIndex(es: seq<Entry>, name: string)
    requires forall j :: 0 <= j < |es| ==> es[j].name != name
    ensures ChildIndex(es, name) == None
  {
  }

  /** The first entry called `name` is the one `ChildIndex` finds. */
  lemma FirstChildIndex(es: seq<Entry>, name: string, k: nat)
    requires k < |es| && es[k].name == name
    requires forall j :: 0 <= j < k ==> es[j].name != name
    ensures ChildIndex(es, name) == Some(k)
  {
  }

  /** One more child copied: the overlay of the first `n - 1` children, overlaid by child `n - 1`. */
  lemma OverlayExtend(t: Tree, before: Tree, es: seq<Entry>, dest: Path, p: Path)
    requires |es| > 0 && DistinctNames(es) && dest in t
    requires Get(before, p) == OverlaidAt(t, Dir(es[..|es| - 1]), dest, p)
    ensures OverlaidAt(before, es[|es| - 1].node, dest + [es[|es| - 1].name], p)
         == OverlaidAt(t, Dir(es), dest, p)
  {
    var n := |es|;
    var child := es[n - 1];
    var d := dest + [child.name];
    if d <= p {
      LookupBelowChild(es, n - 1, dest, p);
      assert p[|d|..] == p[|dest| + 1..];
      assert p[|dest|] == child.name;
      LookupOutsideChildren(es[..n - 1], dest, p);
    } else if dest <= p && p == dest {
      assert p[|dest|..] == [];
    } else if dest <= p {
      var r := p[|dest|..];
      assert r[0] == p[|dest|];
      ChildIndexDropLast(es, r[0]);
    }
  }

  lemma {:induction false} CopyOverlays(t: Tree, src: Node, dest: Path, p: Path)
    requires |dest| > 0 && WellFormed(src) && Copied(t, src, dest).ok
    ensures Get(Copied(t, src, dest).tree, p) == OverlaidAt(t, src, dest, p)
    decreases src, 1
  {
    match src
    case File(content) =>
      if dest <= p && p != dest {
        assert p[|dest|..] != [];
      }
      if dest <= p && p == dest {
        assert p[|dest|..] == [];
      }
    case Dir(children) =>
      var made := if dest in t then Step(t, true) else DirMade(t, dest);
      CopyFirstOverlays(made.tree, src, dest, |children|, p);
      assert children[..|children|] == children;
      if dest <= p && p == dest {
        assert p[|dest|..] == [];
      }
  }

  lemma {:induction false} CopyFirstOverlays(t: Tree, src: Node, dest: Path, k: nat, p: Path)
    requires |dest| > 0 && src.Dir? && WellFormed(src) && k <= |src.children|
    requires dest in t && CopiedFirst(t, src, dest, k).ok
    ensures Get(CopiedFirst(t, src, dest, k).tree, p) == OverlaidAt(t, Dir(src.children[..k]), dest, p)
    decreases src, 0, k
  {
    var es := src.children;
    if k == 0 {
      if dest <= p {
        if p == dest {
          assert p[|dest|..] == [];
        } else {
          LookupOutsideChildren([], dest, p);
        }
      }
    } else {
      var before := CopiedFirst(t, src, dest, k - 1);
      CopyFirstOverlays(t, src, dest, k - 1, p);
      CopyOverlays(before.tree, es[k - 1].node, dest + [es[k - 1].name], p);
      assert es[..k][..k - 1] == es[..k - 1];
      OverlayExtend(t, before.tree, es[..k], dest, p);
    }
  }

  lemma {:induction false} CopyFirstStopsAtFailure(t: Tree, src: Node, dest: Path, j: nat, k: nat)
    requires |dest| > 0 && src.Dir? && j <= k <= |src.children| && !CopiedFirst(t, src, dest, j).ok
    ensures CopiedFirst(t, src, dest, k) == CopiedFirst(t, src, dest, j)
    decreases k
  {
    if k > j {
      CopyFirstStopsAtFailure(t, src, dest, j, k - 1);
    }
  }

  /** `mkdirSync(outDir, {recursive: true})` for a directory directly under the root. */
  lemma DirsMadeUnderRoot(t: Tree, name: string)
    requires Valid(t)
    ensures DirsMade(t, [name]) ==
      if [name] in t then Step(t, t[[name]] == OutDir) else Step(t[[name] := OutDir], true)
  {
    assert Parent([name]) == [];
  }

  /** The tree invariant survives every call, successful or not. */
  lemma WrittenKeepsValid(t: Tree, p: Path, content: string)
    requires Valid(t) && |p| > 0
    ensures Valid(Written(t, p, content).tree)
  {
  }

  lemma DirMadeKeepsValid(t: Tree, p: Path)
    requires Valid(t) && |p| > 0
    ensures Valid(DirMade(t, p).tree)
  {
  }

  lemma {:induction false} DirsMadeKeepsValid(t: Tree, p: Path)
    requires Valid(t)
    ensures Valid(DirsMade(t, p).tree)
    ensures DirsMade(t, p).ok ==> IsDirIn(DirsMade(t, p).tree, p)
    decreases |p|
  {
    if p !in t && p != [] {
      DirsMadeKeepsValid(t, Parent(p));
    }
  }

  lemma {:induction false} CopyKeepsValid(t: Tree, src: Node, dest: Path)
    requires Valid(t) && |dest| > 0
    ensures Valid(Copied(t, src, dest).tree)
    decreases src, 1
  {
    match src
    case File(content) =>
    case Dir(children) =>
      var made := if dest in t then Step(t, true) else DirMade(t, dest);
      if made.ok {
        CopyFirstKeepsValid(made.tree, src, dest, |children|);
      }
  }

  lemma {:induction false} CopyFirstKeepsValid(t: Tree, src: Node, dest: Path, k: nat)
    requires Valid(t) && |dest| > 0 && src.Dir? && k <= |src.children|
    ensures Valid(CopiedFirst(t, src, dest, k).tree)
    decreases src, 0, k
  {
    if k > 0 {
      CopyFirstKeepsValid(t, src, dest, k - 1);
      var before := CopiedFirst(t, src, dest, k - 1);
      if before.ok {
        CopyKeepsValid(before.tree, src.children[k - 1].node, dest + [src.children[k - 1].name]);
      }
    }
  }
}
