/** What scripts/gather-docs.ts promises about the pages it writes and the sidebar it builds. */
module GatherDocsProps {
  import opened Wrappers
  import opened JsText
  import opened FileTree
  import opened OutputTree
  import opened GatherDocs

  /** Every written README opens with `---` once trimmed, so injecting twice changes nothing. */
  lemma FrontMatterIdempotent(readme: string, moduleName: string)
    ensures StartsWith(Trim(WithFrontMatter(readme, moduleName)), "---")
    ensures WithFrontMatter(WithFrontMatter(readme, moduleName), moduleName) == WithFrontMatter(readme, moduleName)
  {
    if !StartsWith(Trim(readme), "---") {
      var rest := "\ntitle: " + moduleName + "\n---\n\n" + readme;
      assert FrontMatter(moduleName) + readme == "---" + rest;
      TrimKeepsLeadingText("---", rest);
    }
  }

  /** Which mode a module takes, and the entry it pushes. */
  lemma ModuleEntryShape(t: Tree, moduleDir: Node, moduleName: string)
    requires ModuleProcessed(t, moduleDir, moduleName).ok
    ensures var r := ModuleProcessed(t, moduleDir, moduleName);
      && (r.entry.None? <==> Lookup(moduleDir, [DocsDir]).None? && Lookup(moduleDir, [Readme]).None?)
      && (r.entry.None? ==> r.tree == t)
      && (Lookup(moduleDir, [DocsDir]).Some? ==> r.entry == Some(Autogenerate(moduleName, "modules/" + moduleName)))
      && (Lookup(moduleDir, [DocsDir]).None? && Lookup(moduleDir, [Readme]).Some? ==>
            r.entry == Some(Link(moduleName, "modules/" + moduleName)))
  {
  }

  /** Mode A: every file under `docs/` lands at the same relative path under `modules/<name>/`. */
  lemma ModeAPlacesDocs(t: Tree, moduleDir: Node, moduleName: string, docs: Node, r: Path, content: string)
    requires Lookup(moduleDir, [DocsDir]) == Some(docs) && WellFormed(docs)
    requires Lookup(docs, r) == Some(File(content))
    requires ModuleProcessed(t, moduleDir, moduleName).ok
    ensures Get(ModuleProcessed(t, moduleDir, moduleName).tree, [moduleName] + r) == Some(OutFile(content))
  {
    var readme := Lookup(moduleDir, [Readme]);
    var made := DirsMade(t, [moduleName]);
    var indexed :=
      match readme
      case None => made
      case Some(File(text)) => Written(made.tree, [moduleName, IndexPage], WithFrontMatter(text, moduleName))
      case Some(Dir(_)) => Step(made.tree, false);
    CopyOverlays(indexed.tree, docs, [moduleName], [moduleName] + r);
    assert ([moduleName] + r)[1..] == r;
  }

  /**
   * Mode A: `index.md` holds the README (with front matter) unless `docs/index.md`
   * is a file, which is copied afterwards and overwrites it.
   */
  lemma ModeAIndexPage(t: Tree, moduleDir: Node, moduleName: string, docs: Node, text: string)
    requires Lookup(moduleDir, [DocsDir]) == Some(docs) && WellFormed(docs)
    requires Lookup(moduleDir, [Readme]) == Some(File(text))
    requires ModuleProcessed(t, moduleDir, moduleName).ok
    ensures Get(ModuleProcessed(t, moduleDir, moduleName).tree, [moduleName, IndexPage]) ==
      match Lookup(docs, [IndexPage])
      case Some(File(page)) => Some(OutFile(page))
      case _ => Some(OutFile(WithFrontMatter(text, moduleName)))
  {
    var made := DirsMade(t, [moduleName]);
    var indexed := Written(made.tree, [moduleName, IndexPage], WithFrontMatter(text, moduleName));
    CopyOverlays(indexed.tree, docs, [moduleName], [moduleName, IndexPage]);
    assert [moduleName, IndexPage][1..] == [IndexPage];
  }

  /** Mode A touches nothing outside `modules/<name>/`. */
  lemma ModeAKeepsOthers(t: Tree, moduleDir: Node, moduleName: string, docs: Node, p: Path)
    requires Valid(t)
    requires Lookup(moduleDir, [DocsDir]) == Some(docs) && WellFormed(docs)
    requires ModuleProcessed(t, moduleDir, moduleName).ok
    requires !([moduleName] <= p)
    ensures Get(ModuleProcessed(t, moduleDir, moduleName).tree, p) == Get(t, p)
  {
    var readme := Lookup(moduleDir, [Readme]);
    var made := DirsMade(t, [moduleName]);
    DirsMadeUnderRoot(t, moduleName);
    var indexed :=
      match readme
      case None => made
      case Some(File(text)) => Written(made.tree, [moduleName, IndexPage], WithFrontMatter(text, moduleName))
      case Some(Dir(_)) => Step(made.tree, false);
    if readme.Some? {
      assert [moduleName] <= [moduleName, IndexPage];
    }
    CopyOverlays(indexed.tree, docs, [moduleName], p);
  }

  /**
   * The whole tree after Mode A: `modules/<name>` is a directory, `index.md` in
   * it holds the README with front matter when there is a README, and `docs/`
   * is laid over that; every other path keeps its old entry.
   */
  lemma ModeAContents(t: Tree, moduleDir: Node, moduleName: string, docs: Node)
    requires Valid(t)
    requires Lookup(moduleDir, [DocsDir]) == Some(docs) && WellFormed(docs)
    requires ModuleProcessed(t, moduleDir, moduleName).ok
    ensures var base := t[[moduleName] := OutDir];
      var indexed :=
        match Lookup(moduleDir, [Readme])
        case Some(File(text)) => base[[moduleName, IndexPage] := OutFile(WithFrontMatter(text, moduleName))]
        case _ => base;
      forall p :: Get(ModuleProcessed(t, moduleDir, moduleName).tree, p) == OverlaidAt(indexed, docs, [moduleName], p)
  {
    var readme := Lookup(moduleDir, [Readme]);
    var made := DirsMade(t, [moduleName]);
    DirsMadeUnderRoot(t, moduleName);
    assert made.tree == t[[moduleName] := OutDir];
    var indexed :=
      match readme
      case None => made
      case Some(File(text)) => Written(made.tree, [moduleName, IndexPage], WithFrontMatter(text, moduleName))
      case Some(Dir(_)) => Step(made.tree, false);
    assert Parent([moduleName, IndexPage]) == [moduleName];
    forall p
      ensures Get(ModuleProcessed(t, moduleDir, moduleName).tree, p) == OverlaidAt(indexed.tree, docs, [moduleName], p)
    {
      CopyOverlays(indexed.tree, docs, [moduleName], p);
    }
  }

  /** Mode B writes exactly `modules/<name>.md` and pushes a link entry; it fails only on a directory of that name. */
  lemma ModeBWritesOnePage(t: Tree, moduleDir: Node, moduleName: string, text: string)
    requires Valid(t)
    requires Lookup(moduleDir, [DocsDir]).None? && Lookup(moduleDir, [Readme]) == Some(File(text))
    ensures var r := ModuleProcessed(t, moduleDir, moduleName);
      && (r.ok <==> !IsDirIn(t, [moduleName + ".md"]))
      && (r.ok ==> r.tree == t[[moduleName + ".md"] := OutFile(WithFrontMatter(text, moduleName))])
      && (r.ok ==> r.entry == Some(Link(moduleName, "modules/" + moduleName)))
  {
    assert Parent([moduleName + ".md"]) == [];
  }

  predicate ItemFor(item: SidebarEntry, moduleName: string) {
    || item == Autogenerate(moduleName, ModuleLink(moduleName))
    || item == Link(moduleName, ModuleLink(moduleName))
  }

  /** `items` are the entries of some of `modules`, at most one each, in listing order. */
  predicate ItemsInListingOrder(items: seq<SidebarEntry>, modules: seq<Entry>)
    decreases |modules|
  {
    if items == [] then true
    else if modules == [] then false
    else
      || (&& ItemFor(items[|items| - 1], modules[|modules| - 1].name)
          && ItemsInListingOrder(items[..|items| - 1], modules[..|modules| - 1]))
      || ItemsInListingOrder(items, modules[..|modules| - 1])
  }

  lemma {:induction false} ModulesInListingOrder(t: Tree, modules: seq<Entry>, k: nat)
    requires k <= |modules| && ModulesProcessed(t, modules, k).ok
    ensures ItemsInListingOrder(ModulesProcessed(t, modules, k).items, modules[..k])
  {
    if k > 0 {
      var before := ModulesProcessed(t, modules, k - 1);
      ModulesInListingOrder(t, modules, k - 1);
      var m := ModuleProcessed(before.tree, modules[k - 1].node, modules[k - 1].name);
      ModuleEntryShape(before.tree, modules[k - 1].node, modules[k - 1].name);
      assert modules[..k][..k - 1] == modules[..k - 1];
      var items := ModulesProcessed(t, modules, k).items;
      if m.entry.Some? {
        assert items[..|items| - 1] == before.items;
      }
    }
  }

  /** A missing source contributes nothing and writes nothing. */
  lemma MissingSourceSkipped(st: RunState, repo: Node, source: Source)
    requires Lookup(repo, source.dir).None?
    ensures SourceProcessed(st, repo, source) == st
  {
  }

  /**
   * A module collection looks only at the directories of its listing, in
   * order, and adds one group entry exactly when some module produced an item.
   */
  lemma CollectionContribution(st: RunState, repo: Node, source: Source, children: seq<Entry>)
    requires !source.isSingle && Lookup(repo, source.dir) == Some(Dir(children))
    requires SourceProcessed(st, repo, source).ok
    ensures var r := SourceProcessed(st, repo, source);
      var g := ModulesProcessed(st.tree, DirEntries(children), |DirEntries(children)|);
      && r.tree == g.tree
      && (r.entries == st.entries <==> g.items == [])
      && (r.entries != st.entries ==> r.entries == st.entries + [Group(source.group, g.items)])
      && ItemsInListingOrder(g.items, DirEntries(children))
  {
    var modules := DirEntries(children);
    ModulesInListingOrder(st.tree, modules, |modules|);
    assert modules[..|modules|] == modules;
  }

  /** The single `Core` source is processed as module `core` and adds its one item, unwrapped. */
  lemma CoreContribution(st: RunState, repo: Node, root: Node)
    requires Lookup(repo, ["core"]) == Some(root)
    requires SourceProcessed(st, repo, Sources[2]).ok
    ensures var r := SourceProcessed(st, repo, Sources[2]);
      var m := ModuleProcessed(st.tree, root, "core");
      && r.tree == m.tree
      && (m.entry.None? ==> r.entries == st.entries)
      && (m.entry.Some? ==> r.entries == st.entries + [m.entry.value] && !m.entry.value.Group?
                             && m.entry.value.caption == "core")
  {
    assert AsciiLower("Core") == "core";
    ModuleEntryShape(st.tree, root, "core");
  }

  predicate EntryFor(e: SidebarEntry, source: Source) {
    if source.isSingle then !e.Group? && e.caption == AsciiLower(source.group)
    else e.Group? && e.caption == source.group && |e.items| > 0
  }

  /** `entries` come from some of `sources`, at most one each, in the order of `sources`. */
  predicate EntriesInSourceOrder(entries: seq<SidebarEntry>, sources: seq<Source>)
    decreases |sources|
  {
    if entries == [] then true
    else if sources == [] then false
    else
      || (&& EntryFor(entries[|entries| - 1], sources[|sources| - 1])
          && EntriesInSourceOrder(entries[..|entries| - 1], sources[..|sources| - 1]))
      || EntriesInSourceOrder(entries, sources[..|sources| - 1])
  }

  lemma SourceAddsAtMostOne(st: RunState, repo: Node, source: Source)
    requires SourceProcessed(st, repo, source).ok
    ensures var r := SourceProcessed(st, repo, source);
      || r.entries == st.entries
      || (|r.entries| == |st.entries| + 1 && r.entries[..|st.entries|] == st.entries
          && EntryFor(r.entries[|st.entries|], source))
  {
    match Lookup(repo, source.dir)
    case None =>
    case Some(root) =>
      if source.isSingle {
        ModuleEntryShape(st.tree, root, AsciiLower(source.group));
      }
  }

  lemma {:induction false} SourcesInOrder(repo: Node, k: nat)
    requires k <= |Sources| && SourcesProcessed(repo, k).ok
    ensures EntriesInSourceOrder(SourcesProcessed(repo, k).entries, Sources[..k])
  {
    if k > 0 {
      var before := SourcesProcessed(repo, k - 1);
      SourcesInOrder(repo, k - 1);
      SourcesStep(repo, k - 1);
      SourceAddsAtMostOne(before, repo, Sources[k - 1]);
      assert Sources[..k] == Sources[..k - 1] + [Sources[k - 1]];
      OrderExtend(before.entries, SourcesProcessed(repo, k).entries, Sources[..k - 1], Sources[k - 1]);
    }
  }

  /** Keeping the sidebar, or pushing one entry for the next source, keeps it in source order. */
  lemma OrderExtend(before: seq<SidebarEntry>, after: seq<SidebarEntry>, sources: seq<Source>, source: Source)
    requires EntriesInSourceOrder(before, sources)
    requires || after == before
             || (|after| == |before| + 1 && after[..|before|] == before && EntryFor(after[|before|], source))
    ensures EntriesInSourceOrder(after, sources + [source])
  {
    assert (sources + [source])[..|sources|] == sources;
  }

  /** The sidebar lists at most one entry per source, in the order of `SOURCES`. */
  lemma GatheredInSourceOrder(repo: Node)
    requires Gathered(repo).ok
    ensures EntriesInSourceOrder(Gathered(repo).entries, Sources)
  {
    SourcesInOrder(repo, |Sources|);
    assert Sources[..|Sources|] == Sources;
  }

  lemma ModuleKeepsValid(t: Tree, moduleDir: Node, moduleName: string)
    requires Valid(t)
    ensures Valid(ModuleProcessed(t, moduleDir, moduleName).tree)
  {
    var docs := Lookup(moduleDir, [DocsDir]);
    var readme := Lookup(moduleDir, [Readme]);
    if docs.Some? {
      var made := DirsMade(t, [moduleName]);
      DirsMadeKeepsValid(t, [moduleName]);
      if made.ok {
        IndexedKeepsValid(made.tree, docs.value, readme, moduleName);
      }
    } else if readme.Some? && readme.value.File? {
      WrittenKeepsValid(t, [moduleName + ".md"], WithFrontMatter(readme.value.content, moduleName));
    }
  }

  lemma IndexedKeepsValid(t: Tree, docs: Node, readme: Option<Node>, moduleName: string)
    requires Valid(t)
    ensures var indexed :=
        match readme
        case None => Step(t, true)
        case Some(File(text)) => Written(t, [moduleName, IndexPage], WithFrontMatter(text, moduleName))
        case Some(Dir(_)) => Step(t, false);
      Valid(indexed.tree) && Valid(Copied(indexed.tree, docs, [moduleName]).tree)
  {
    var indexed :=
      match readme
      case None => Step(t, true)
      case Some(File(text)) => Written(t, [moduleName, IndexPage], WithFrontMatter(text, moduleName))
      case Some(Dir(_)) => Step(t, false);
    if readme.Some? && readme.value.File? {
      WrittenKeepsValid(t, [moduleName, IndexPage], WithFrontMatter(readme.value.content, moduleName));
    }
    CopyKeepsValid(indexed.tree, docs, [moduleName]);
  }

  lemma {:induction false} ModulesKeepValid(t: Tree, modules: seq<Entry>, k: nat)
    requires Valid(t) && k <= |modules|
    ensures Valid(ModulesProcessed(t, modules, k).tree)
  {
    if k > 0 {
      ModulesKeepValid(t, modules, k - 1);
      var before := ModulesProcessed(t, modules, k - 1);
      if before.ok {
        ModuleKeepsValid(before.tree, modules[k - 1].node, modules[k - 1].name);
      }
    }
  }

  lemma {:induction false} SourcesKeepValid(repo: Node, k: nat)
    requires k <= |Sources|
    ensures Valid(SourcesProcessed(repo, k).tree)
  {
    if k > 0 {
      SourcesKeepValid(repo, k - 1);
      var before := SourcesProcessed(repo, k - 1);
      var source := Sources[k - 1];
      if before.ok {
        match Lookup(repo, source.dir)
        case None =>
        case Some(root) =>
          if source.isSingle {
            ModuleKeepsValid(before.tree, root, AsciiLower(source.group));
          } else if root.Dir? {
            ModulesKeepValid(before.tree, DirEntries(root.children), |DirEntries(root.children)|);
          }
      }
    }
  }

  /** Whatever the repository holds, even after a failed call, the output is a well-formed tree. */
  lemma GatheredValid(repo: Node)
    ensures Valid(Gathered(repo).tree)
  {
    SourcesKeepValid(repo, |Sources|);
  }
}
