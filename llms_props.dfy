/** What scripts/generate-llms-txt.ts produces, stated about the model in llms_txt.dfy. */
module LlmsProps {
  import opened Wrappers
  import opened JsText
  import opened FileTree
  import opened StableSort
  import opened LlmsSort
  import opened LlmsText
  import opened LlmsTxt

  /** On a real directory tree every listed file can be read. */
  lemma ListedFilesReadable(root: Node, p: Path)
    requires WellFormed(root) && p in MdFiles(root, [])
    ensures ReadFile(root, p).Some?
  {
    MdFilesMembers(root, [], p);
    assert p[0..] == p;
    ReachedIsFile(root, p);
  }

  /** The load fails exactly when some read does. */
  lemma {:induction false} LoadedDocsFails(root: Node, files: seq<Path>, baseUrl: string)
    ensures LoadedDocs(root, files, baseUrl).None? <==> exists i :: 0 <= i < |files| && ReadFile(root, files[i]).None?
    decreases |files|
  {
    if files != [] {
      var init := files[..|files| - 1];
      LoadedDocsFails(root, init, baseUrl);
      if LoadedDocs(root, init, baseUrl).None? {
        var i :| 0 <= i < |init| && ReadFile(root, init[i]).None?;
        assert init[i] == files[i];
      } else {
        assert forall i :: 0 <= i < |init| ==> init[i] == files[i];
      }
    }
  }

  /** The pages are the files read, one page per file, in order. */
  lemma {:induction false} LoadedDocsPages(root: Node, files: seq<Path>, baseUrl: string, pages: seq<Doc>)
    requires LoadedDocs(root, files, baseUrl) == Some(pages)
    ensures |pages| == |files|
    ensures forall i :: 0 <= i < |files| ==>
      ReadFile(root, files[i]).Some? && pages[i] == Doc(Rel(files[i]), ReadFile(root, files[i]).value, baseUrl)
    decreases |files|
  {
    if files != [] {
      var init := files[..|files| - 1];
      var before := LoadedDocs(root, init, baseUrl).value;
      LoadedDocsPages(root, init, baseUrl, before);
      assert pages == before + [pages[|pages| - 1]];
      forall i | 0 <= i < |init|
        ensures ReadFile(root, files[i]).Some? && pages[i] == Doc(Rel(files[i]), ReadFile(root, files[i]).value, baseUrl)
      {
        assert init[i] == files[i] && pages[i] == before[i];
      }
    }
  }

  /** On a real directory tree the script always writes both texts. */
  lemma GeneratedOnWellFormed(root: Node, baseUrl: string)
    requires root.Dir? && WellFormed(root)
    ensures Generated(Some(root), baseUrl).Some?
  {
    var files := InsertionSort(MdFiles(root, []), FileOrder);
    SortedFiles(MdFiles(root, []));
    LoadedDocsFails(root, files, baseUrl);
    forall i | 0 <= i < |files|
      ensures ReadFile(root, files[i]).Some?
    {
      assert files[i] in multiset(MdFiles(root, []));
      ListedFilesReadable(root, files[i]);
    }
  }

  /** Without a content directory nothing is written. */
  lemma GeneratedNeedsDirectory(docs: Option<Node>, baseUrl: string)
    requires docs.None? || docs.value.File?
    ensures Generated(docs, baseUrl).None?
  {
  }

  /**
   * Each page appears in both texts, in sorted order: the summary is its header,
   * one line per page and its footer; the full text its header and one block
   * per page.
   */
  lemma {:induction false} ConcatMapAppend<T>(a: seq<T>, b: seq<T>, f: T -> string)
    ensures ConcatMap(a + b, f) == ConcatMap(a, f) + ConcatMap(b, f)
    decreases |b|
  {
    if b == [] {
      assert a + b == a;
    } else {
      var b' := b[..|b| - 1];
      ConcatMapAppend(a, b', f);
      assert (a + b)[..|a + b| - 1] == a + b';
      assert (a + b)[|a + b| - 1] == b[|b| - 1];
    }
  }

  lemma PageTexts(pages: seq<Doc>, i: nat)
    requires i < |pages|
    ensures SummaryOf(pages) == SummaryOf(pages[..i]) + SummaryLine(pages[i]) + SummaryOf(pages[i + 1..])
    ensures FullOf(pages) == FullOf(pages[..i]) + FullBlock(pages[i]) + FullOf(pages[i + 1..])
  {
    var before, page, after := pages[..i], pages[i], pages[i + 1..];
    assert pages == (before + [page]) + after;
    ConcatMapAppend(before + [page], after, SummaryLine);
    ConcatMapAppend(before + [page], after, FullBlock);
    ConcatMapSnoc(before, page, SummaryLine);
    ConcatMapSnoc(before, page, FullBlock);
  }

  /** A content directory without Markdown files gives just the headers and the footer. */
  lemma NoPagesGeneratesFrame(root: Node, baseUrl: string)
    requires root.Dir? && MdFiles(root, []) == []
    ensures Generated(Some(root), baseUrl) == Some(Outputs(SummaryHeader + SummaryFooter(baseUrl), FullHeader))
  {
    assert SummaryHeader + [] == SummaryHeader && FullHeader + [] == FullHeader;
  }

  /**
   * The pages come in sorted order: pages matching a priority entry first, by
   * entry, the rest in string order of their relative paths.
   */
  lemma PagesInPriorityOrder(root: Node, baseUrl: string)
    requires root.Dir?
    requires LoadedDocs(root, InsertionSort(MdFiles(root, []), FileOrder), baseUrl).Some?
    ensures var pages := LoadedDocs(root, InsertionSort(MdFiles(root, []), FileOrder), baseUrl).value;
      forall i, j :: 0 <= i < j < |pages| ==>
        && (PriorityIndex(pages[j].rel) >= 0 ==> 0 <= PriorityIndex(pages[i].rel) <= PriorityIndex(pages[j].rel))
        && (PriorityIndex(pages[i].rel) == -1 ==> PriorityIndex(pages[j].rel) == -1 && LexCompare(pages[i].rel, pages[j].rel) <= 0)
  {
    var files := InsertionSort(MdFiles(root, []), FileOrder);
    LoadedDocsPages(root, files, baseUrl, LoadedDocs(root, files, baseUrl).value);
    PriorityOrder(MdFiles(root, []));
  }

  /** A missing `title:` falls back to the relative path, a missing `description:` to nothing. */
  lemma DocFallbacks(rel: string, content: string, baseUrl: string)
    ensures (forall i :: 0 <= i ==> !OccursAt(content, "title" + ":", i)) ==> Title(Doc(rel, content, baseUrl)) == rel
    ensures (forall i :: 0 <= i ==> !OccursAt(content, "description" + ":", i)) ==> Description(Doc(rel, content, baseUrl)) == ""
  {
    FieldCaptureShape(content, "title");
    FieldCaptureShape(content, "description");
  }

  lemma SuffixRemoved(a: string, b: string)
    ensures EndsWith(a + b, b) && (a + b)[..|a + b| - |b|] == a
  {
    assert (a + b)[|a + b| - |b|..] == b;
  }

  /** A page named `index` is served at its directory, given with its trailing slash. */
  lemma IndexPageUrl(dir: string)
    ensures UrlPath(dir + "index" + ".md") == dir
    ensures UrlPath(dir + "index" + ".mdx") == dir
  {
    SuffixRemoved(dir + "index", ".md");
    SuffixRemoved(dir + "index", ".mdx");
    SuffixRemoved(dir, "index");
  }

  /** Any other page is served at its path without the extension. */
  lemma PageUrl(stem: string)
    requires !EndsWith(stem, "index")
    ensures UrlPath(stem + ".md") == stem
    ensures UrlPath(stem + ".mdx") == stem
  {
    SuffixRemoved(stem, ".md");
    SuffixRemoved(stem, ".mdx");
  }

  /** The trailing `index` is removed also from the end of a longer name. */
  lemma TrailingIndexInName()
    ensures UrlPath("guides/re" + "index" + ".md") == "guides/re"
  {
    IndexPageUrl("guides/re");
  }

  /** A URL whose slashes are already single is used as written. */
  lemma FullUrlWhenCollapsed(baseUrl: string, rel: string)
    requires Collapsed(baseUrl + "/" + UrlPath(rel))
    ensures FullUrl(baseUrl, rel) == baseUrl + "/" + UrlPath(rel)
  {
    CollapseKeepsCollapsed(baseUrl + "/" + UrlPath(rel));
  }

  /** The link text of a page is its `title:` line when it has one. */
  lemma TitleFromFrontMatter(pre: string, title: string, rest: string, rel: string, baseUrl: string)
    requires forall i :: 0 <= i < |pre| ==> !OccursAt(pre + ("title" + ":"), "title" + ":", i)
    requires OneLineValue(title) && title != []
    requires rest == [] || IsLineTerminator(rest[0])
    ensures Title(Doc(rel, pre + ("title" + ":") + " " + title + rest, baseUrl)) == title
  {
    FieldCaptureReadsLine(pre, "title", " ", title, rest);
  }

  /** The key is matched as plain text: a `subtitle:` line also supplies the title. */
  lemma SubtitleAlsoMatches(value: string, rest: string)
    requires OneLineValue(value) && value != []
    requires rest == [] || IsLineTerminator(rest[0])
    ensures FieldCapture("sub" + ("title" + ":") + " " + value + rest, "title") == Some(value)
  {
    forall i | 0 <= i < 3
      ensures !OccursAt("sub" + ("title" + ":"), "title" + ":", i)
    {
      assert ("sub" + ("title" + ":"))[i] != 't';
    }
    FieldCaptureReadsLine("sub", "title", " ", value, rest);
  }
}
