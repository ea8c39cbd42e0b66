/**
 * scripts/gather-docs.ts: every module of the two module collections, and the
 * core package, is turned into pages under `modules/` and a sidebar entry.
 * A module with a `docs/` directory is copied as a directory with its README
 * as `index.md` and an `autogenerate` entry; a module with only a README
 * becomes `modules/<name>.md` with a `link` entry; anything else is skipped.
 */
module GatherDocs {
  import opened Wrappers
  import opened JsText
  import opened FileTree
  import opened OutputTree

  const DocsDir := "docs"
  const Readme := "README.md"
  const IndexPage := "index.md"

  /** A sidebar item; `caption` is the JSON `label` field. */
  datatype SidebarEntry =
    | Autogenerate(caption: string, directory: string)
    | Link(caption: string, link: string)
    | Group(caption: string, items: seq<SidebarEntry>)

  /** A `SOURCES` element: a module collection, or (isSingle) one module processed as a whole. */
  datatype Source = Source(group: string, dir: Path, isSingle: bool)

  const Sources: seq<Source> := [
    Source("Backend Modules", ["apps", "backend", "modules"], false),
    Source("Frontend Modules", ["apps", "frontend", "modules"], false),
    Source("Core", ["core"], true)
  ]

  /** The tree right after the clean-out: an empty `modules` directory. */
  const CleanTree: Tree := map[[] := OutDir]

  function FrontMatter(moduleName: string): string {
    "---\ntitle: " + moduleName + "\n---\n\n"
  }

  /** The README as written out: front matter is prepended unless the trimmed text already opens with `---`. */
  function WithFrontMatter(readme: string, moduleName: string): (r: string)
    ensures r == readme <==> StartsWith(Trim(readme), "---")
    ensures r != readme ==> r == FrontMatter(moduleName) + readme
  {
    if !StartsWith(Trim(readme), "---") then FrontMatter(moduleName) + readme else readme
  }

  function ModuleLink(moduleName: string): string {
    "modules/" + moduleName
  }

  /** The tree after `processModule`, whether it returned normally, and the entry it pushed. */
  datatype ModuleResult = ModuleResult(tree: Tree, ok: bool, entry: Option<SidebarEntry>)

  function Failed(s: Step): ModuleResult {
    ModuleResult(s.tree, false, None)
  }

  /** `processModule(modulePath, moduleName, groupItems)`, with `moduleDir` the node at `modulePath`. */
  function ModuleProcessed(t: Tree, moduleDir: Node, moduleName: string): ModuleResult {
    var docs := Lookup(moduleDir, [DocsDir]);
    var readme := Lookup(moduleDir, [Readme]);
    if docs.None? && readme.None? then ModuleResult(t, true, None)
    else if docs.Some? then
      // Mode A: the module's docs directory, with the README as its index page
      var made := DirsMade(t, [moduleName]);
      if !made.ok then Failed(made)
      else
        var indexed :=
          match readme
          case None => made
          case Some(File(text)) => Written(made.tree, [moduleName, IndexPage], WithFrontMatter(text, moduleName))
          case Some(Dir(_)) => Step(made.tree, false);  // readFileSync on a directory: EISDIR
        if !indexed.ok then Failed(indexed)
        else
          var copied := Copied(indexed.tree, docs.value, [moduleName]);
          if !copied.ok then Failed(copied)
          else ModuleResult(copied.tree, true, Some(Autogenerate(moduleName, ModuleLink(moduleName))))
    else
      // Mode B: the README alone, as a single page
      match readme.value
      case Dir(_) => Failed(Step(t, false))
      case File(text) =>
        var written := Written(t, [moduleName + ".md"], WithFrontMatter(text, moduleName));
        if !written.ok then Failed(written)
        else ModuleResult(written.tree, true, Some(Link(moduleName, ModuleLink(moduleName))))
  }

  function Pushed(items: seq<SidebarEntry>, entry: Option<SidebarEntry>): seq<SidebarEntry> {
    if entry.Some? then items + [entry.value] else items
  }

  /** The entries of a listing that are directories, in listing order. */
  function DirEntries(es: seq<Entry>): (r: seq<Entry>)
    ensures forall e :: e in r <==> e in es && e.node.Dir?
  {
    if es == [] then []
    else (if es[0].node.Dir? then [es[0]] else []) + DirEntries(es[1..])
  }

  datatype GroupResult = GroupResult(tree: Tree, ok: bool, items: seq<SidebarEntry>)

  /** The `for (const moduleName of modules)` loop over a collection, after its first `k` modules. */
  function ModulesProcessed(t: Tree, modules: seq<Entry>, k: nat): GroupResult
    requires k <= |modules|
  {
    if k == 0 then GroupResult(t, true, [])
    else
      var before := ModulesProcessed(t, modules, k - 1);
      if !before.ok then before
      else
        var m := ModuleProcessed(before.tree, modules[k - 1].node, modules[k - 1].name);
        GroupResult(m.tree, m.ok, Pushed(before.items, m.entry))
  }

  /** The run so far: the output tree, whether it is still going, and `sidebarEntries`. */
  datatype RunState = RunState(tree: Tree, ok: bool, entries: seq<SidebarEntry>)

  /** One iteration of the loop over `SOURCES`. */
  function SourceProcessed(st: RunState, repo: Node, source: Source): RunState {
    match Lookup(repo, source.dir)
    case None => st
    case Some(root) =>
      if source.isSingle then
        var m := ModuleProcessed(st.tree, root, AsciiLower(source.group));
        RunState(m.tree, m.ok, Pushed(st.entries, m.entry))
      else
        match root
        case File(_) => RunState(st.tree, false, st.entries)  // readdirSync on a file: ENOTDIR
        case Dir(children) =>
          var modules := DirEntries(children);
          var g := ModulesProcessed(st.tree, modules, |modules|);
          RunState(g.tree, g.ok,
            if g.ok && |g.items| > 0 then st.entries + [Group(source.group, g.items)] else st.entries)
  }

  function SourcesProcessed(repo: Node, k: nat): RunState
    requires k <= |Sources|
  {
    if k == 0 then RunState(CleanTree, true, [])
    else
      var before := SourcesProcessed(repo, k - 1);
      if !before.ok then before else SourceProcessed(before, repo, Sources[k - 1])
  }

  /** The whole script, for the repository tree `repo`. */
  function Gathered(repo: Node): RunState {
    SourcesProcessed(repo, |Sources|)
  }

  lemma {:induction false} ModulesStopAtFailure(t: Tree, modules: seq<Entry>, j: nat, k: nat)
    requires j <= k <= |modules| && !ModulesProcessed(t, modules, j).ok
    ensures ModulesProcessed(t, modules, k) == ModulesProcessed(t, modules, j)
    decreases k
  {
    if k > j {
      ModulesStopAtFailure(t, modules, j, k - 1);
    }
  }

  lemma SourcesStep(repo: Node, i: nat)
    requires i < |Sources| && SourcesProcessed(repo, i).ok
    ensures SourcesProcessed(repo, i + 1) == SourceProcessed(SourcesProcessed(repo, i), repo, Sources[i])
  {
  }

  lemma {:induction false} SourcesStopAtFailure(repo: Node, j: nat, k: nat)
    requires j <= k <= |Sources| && !SourcesProcessed(repo, j).ok
    ensures SourcesProcessed(repo, k) == SourcesProcessed(repo, j)
    decreases k
  {
    if k > j {
      SourcesStopAtFailure(repo, j, k - 1);
    }
  }

  /** The script's state: the output tree, `sidebarEntries`, and what `sidebar-modules.json` holds. */
  class Gatherer {
    var out: Tree
    var sidebarEntries: seq<SidebarEntry>
    var sidebarFile: Option<seq<SidebarEntry>>

    constructor ()
      ensures out == CleanTree && sidebarEntries == [] && sidebarFile == None
    {
      out := CleanTree;
      sidebarEntries := [];
      sidebarFile := None;
    }

    method CopyRecursive(src: Node, dest: Path) returns (ok: bool)
      requires |dest| > 0
      modifies this`out
      ensures Step(out, ok) == Copied(old(out), src, dest)
      decreases src
    {
      match src {
        case File(content) =>
          var written := Written(out, dest, content);
          out, ok := written.tree, written.ok;
        case Dir(children) =>
          if dest !in out {
            var made := DirMade(out, dest);
            out, ok := made.tree, made.ok;
            if !ok {
              return;
            }
          }
          ghost var start := out;
          ok := true;
          var i := 0;
          while i < |children| && ok
            invariant 0 <= i <= |children|
            invariant Step(out, ok) == CopiedFirst(start, src, dest, i)
          {
            ok := CopyRecursive(children[i].node, dest + [children[i].name]);
            i := i + 1;
          }
          if !ok {
            CopyFirstStopsAtFailure(start, src, dest, i, |children|);
          }
      }
    }

    method ProcessModule(moduleDir: Node, moduleName: string, groupItems: seq<SidebarEntry>)
      returns (items: seq<SidebarEntry>, ok: bool)
      modifies this`out
      ensures ModuleResult(out, ok, ModuleProcessed(old(out), moduleDir, moduleName).entry)
           == ModuleProcessed(old(out), moduleDir, moduleName)
      ensures items == Pushed(groupItems, ModuleProcessed(old(out), moduleDir, moduleName).entry)
    {
      items := groupItems;
      var docs := Lookup(moduleDir, [DocsDir]);
      var readme := Lookup(moduleDir, [Readme]);
      if docs.None? && readme.None? {
        return items, true;
      }
      if docs.Some? {
        var made := DirsMade(out, [moduleName]);
        out, ok := made.tree, made.ok;
        if !ok {
          return;
        }
        if readme.Some? {
          if readme.value.Dir? {
            return items, false;
          }
          var content := WithFrontMatter(readme.value.content, moduleName);
          var written := Written(out, [moduleName, IndexPage], content);
          out, ok := written.tree, written.ok;
          if !ok {
            return;
          }
        }
        ok := CopyRecursive(docs.value, [moduleName]);
        if !ok {
          return;
        }
        items := items + [Autogenerate(moduleName, ModuleLink(moduleName))];
      } else {
        if readme.value.Dir? {
          return items, false;
        }
        var content := WithFrontMatter(readme.value.content, moduleName);
        var written := Written(out, [moduleName + ".md"], content);
        out, ok := written.tree, written.ok;
        if !ok {
          return;
        }
        items := items + [Link(moduleName, ModuleLink(moduleName))];
      }
    }

    /** One iteration of the loop over `SOURCES`: the group items are collected and pushed. */
    method ProcessSource(repo: Node, source: Source) returns (ok: bool)
      modifies this`out, this`sidebarEntries
      ensures RunState(out, ok, sidebarEntries)
           == SourceProcessed(RunState(old(out), true, old(sidebarEntries)), repo, source)
    {
      ok := true;
      ghost var st0 := RunState(out, true, sidebarEntries);
      var root := Lookup(repo, source.dir);
      if root.None? {
        return;
      }
      var groupItems := [];
      if source.isSingle {
        var moduleName := AsciiLower(source.group);
        ghost var m := ModuleProcessed(out, root.value, moduleName);
        groupItems, ok := ProcessModule(root.value, moduleName, groupItems);
        assert groupItems == Pushed([], m.entry);
        if |groupItems| > 0 {
          sidebarEntries := sidebarEntries + [groupItems[0]];
        }
      } else if root.value.File? {
        ok := false;
      } else {
        var modules := DirEntries(root.value.children);
        ghost var start := out;
        var j := 0;
        while j < |modules| && ok
          invariant 0 <= j <= |modules|
          invariant GroupResult(out, ok, groupItems) == ModulesProcessed(start, modules, j)
          invariant sidebarEntries == st0.entries
        {
          groupItems, ok := ProcessModule(modules[j].node, modules[j].name, groupItems);
          j := j + 1;
        }
        if !ok {
          ModulesStopAtFailure(start, modules, j, |modules|);
        } else {
          assert j == |modules|;
        }
        if ok && |groupItems| > 0 {
          sidebarEntries := sidebarEntries + [Group(source.group, groupItems)];
        }
      }
    }

    method Run(repo: Node) returns (ok: bool)
      modifies this
      ensures RunState(out, ok, sidebarEntries) == Gathered(repo)
      ensures sidebarFile == if ok then Some(sidebarEntries) else old(sidebarFile)
    {
      out := CleanTree;
      sidebarEntries := [];
      ok := true;
      var i := 0;
      while i < |Sources| && ok
        invariant 0 <= i <= |Sources|
        invariant RunState(out, ok, sidebarEntries) == SourcesProcessed(repo, i)
        invariant sidebarFile == old(sidebarFile)
      {
        SourcesStep(repo, i);
        ok := ProcessSource(repo, Sources[i]);
        i := i + 1;
      }
      if !ok {
        SourcesStopAtFailure(repo, i, |Sources|);
      } else {
        sidebarFile := Some(sidebarEntries);
      }
    }
  }
}
