/**
 * scripts/generate-llms-txt.ts: collect the Markdown pages under the content
 * directory, sort them, and build `llms.txt` (one line per page) and
 * `llms-full.txt` (every page's text) from them.
 */
module LlmsTxt {
  import opened Wrappers
  import opened JsText
  import opened FileTree
  import opened StableSort
  import opened LlmsSort
  import opened LlmsText

  /** `file.endsWith('.md') || file.endsWith('.mdx')`. */
  predicate IsMarkdownName(name: string) {
    EndsWith(name, ".md") || EndsWith(name, ".mdx")
  }

  /** `getFiles(dir)`: the Markdown files below `n`, depth first in listing order, as paths under `dir`. */
  function MdFiles(n: Node, dir: Path): seq<Path>
    decreases n, 1
  {
    match n
    case File(_) => []
    case Dir(children) => MdFilesFirst(n, dir, |children|)
  }

  /** What the loop over `readdirSync(dir)` has pushed after its first `k` entries. */
  function MdFilesFirst(n: Node, dir: Path, k: nat): seq<Path>
    requires n.Dir? && k <= |n.children|
    decreases n, 0, k
  {
    if k == 0 then []
    else
      MdFilesFirst(n, dir, k - 1) + EntryFiles(n.children[k - 1], dir)
  }

  /** What one entry of `readdirSync(dir)` pushes: a subdirectory's files, or the entry itself when it is a Markdown file. */
  function EntryFiles(e: Entry, dir: Path): seq<Path>
    decreases e.node, 2
  {
    if e.node.Dir? then MdFiles(e.node, dir + [e.name])
    else if IsMarkdownName(e.name) then [dir + [e.name]]
    else []
  }

  /** `q` leads from the directory `n` through directories to a Markdown file. */
  ghost predicate ReachesMarkdown(n: Node, q: Path)
    decreases |q|, 1
  {
    n.Dir? && exists i :: 0 <= i < |n.children| && ReachesThrough(n.children[i], q)
  }

  /** `q` leads through the entry `e` to a Markdown file. */
  ghost predicate ReachesThrough(e: Entry, q: Path)
    decreases |q|, 0
  {
    && q != []
    && e.name == q[0]
    && if |q| == 1 then e.node.File? && IsMarkdownName(e.name) else ReachesMarkdown(e.node, q[1..])
  }

  /** `getFiles` lists exactly the paths that lead to a Markdown file. */
  lemma {:induction false} MdFilesMembers(n: Node, dir: Path, p: Path)
    ensures p in MdFiles(n, dir) <==> |dir| < |p| && p[..|dir|] == dir && ReachesMarkdown(n, p[|dir|..])
    decreases n, 1
  {
    if n.Dir? {
      MdFilesFirstMembers(n, dir, |n.children|, p);
    }
  }

  lemma {:induction false} MdFilesFirstMembers(n: Node, dir: Path, k: nat, p: Path)
    requires n.Dir? && k <= |n.children|
    ensures p in MdFilesFirst(n, dir, k) <==>
      |dir| < |p| && p[..|dir|] == dir && exists i :: 0 <= i < k && ReachesThrough(n.children[i], p[|dir|..])
    decreases n, 0, k
  {
    if k > 0 {
      MdFilesFirstMembers(n, dir, k - 1, p);
      EntryFilesMembers(n.children[k - 1], dir, p);
    }
  }

  lemma {:induction false} EntryFilesMembers(e: Entry, dir: Path, p: Path)
    ensures p in EntryFiles(e, dir) <==> |dir| < |p| && p[..|dir|] == dir && ReachesThrough(e, p[|dir|..])
    decreases e.node, 2
  {
    var here := dir + [e.name];
    if e.node.Dir? {
      MdFilesMembers(e.node, here, p);
      if |dir| < |p| && p[..|dir|] == dir {
        var q := p[|dir|..];
        assert p[..|here|] == here <==> p[|dir|] == e.name by {
          if p[|dir|] == e.name && |here| <= |p| {
            assert p[..|here|] == p[..|dir|] + [p[|dir|]];
          }
        }
        assert q[1..] == p[|here|..];
      }
    } else if IsMarkdownName(e.name) {
      if |dir| < |p| && p[..|dir|] == dir {
        var q := p[|dir|..];
        assert p == here <==> ReachesThrough(e, q) by {
          if p == here {
            assert q == [e.name];
          }
          if ReachesThrough(e, q) {
            assert p == p[..|dir|] + q;
          }
        }
      }
    }
  }

  /** With distinct names in every directory, a reachable Markdown path looks up to a file. */
  lemma {:induction false} ReachedIsFile(n: Node, q: Path)
    requires WellFormed(n) && ReachesMarkdown(n, q)
    ensures Lookup(n, q).Some? && Lookup(n, q).value.File?
    decreases |q|
  {
    var i :| 0 <= i < |n.children| && ReachesThrough(n.children[i], q);
    ChildIndexOfDistinct(n.children, i);
    if |q| > 1 {
      ReachedIsFile(n.children[i].node, q[1..]);
    }
  }

  /** `fs.readFileSync(path)`: the content of the file at `p`; None where it throws. */
  function ReadFile(root: Node, p: Path): Option<string> {
    match Lookup(root, p)
    case Some(File(content)) => Some(content)
    case _ => None
  }

  /** One file as the loop body sees it: its relative path, its text, and the site's base URL. */
  datatype Doc = Doc(rel: string, content: string, baseUrl: string)

  /** `titleMatch ? titleMatch[1] : relativePath`. */
  function Title(d: Doc): string {
    match FieldCapture(d.content, "title")
    case Some(t) => t
    case None => d.rel
  }

  /** `descMatch ? descMatch[1] : ''`. */
  function Description(d: Doc): string {
    match FieldCapture(d.content, "description")
    case Some(t) => t
    case None => ""
  }

  function Url(d: Doc): string {
    FullUrl(d.baseUrl, d.rel)
  }

  function Body(d: Doc): string {
    CleanContent(d.content)
  }

  function SummaryLine(d: Doc): string {
    "- [" + Title(d) + "](" + Url(d) + "): " + Description(d) + "\n"
  }

  function FullBlock(d: Doc): string {
    "\n\n---\n\n" + "# File: " + d.rel + "\n" + "# URL: " + Url(d) + "\n\n" + Body(d)
  }

  const SummaryHeader: string :=
    "# Nexical Ecosystem Documentation\n\n" + "> The SaaS Operating System for the AI Era.\n\n" + "## Documentation Map\n\n"

  const FullHeader: string := "# Nexical Ecosystem Documentation (Full)\n\n"

  function SummaryFooter(baseUrl: string): string {
    "\n\n## Full Documentation\n" + "For the complete context, access [llms-full.txt](" + baseUrl + "/llms-full.txt).\n"
  }

  /** The texts `f` gives the elements of `xs`, concatenated in order. */
  function ConcatMap<T>(xs: seq<T>, f: T -> string): string {
    if xs == [] then [] else ConcatMap(xs[..|xs| - 1], f) + f(xs[|xs| - 1])
  }

  /** The summary lines of `docs`, in order. */
  function SummaryOf(docs: seq<Doc>): string {
    ConcatMap(docs, SummaryLine)
  }

  /** The full-text blocks of `docs`, in order. */
  function FullOf(docs: seq<Doc>): string {
    ConcatMap(docs, FullBlock)
  }

  lemma ConcatMapSnoc<T>(xs: seq<T>, x: T, f: T -> string)
    ensures ConcatMap(xs + [x], f) == ConcatMap(xs, f) + f(x)
  {
    assert (xs + [x])[..|xs|] == xs;
  }

  /** The pages of `files`, in order, or None if some read throws. */
  function LoadedDocs(root: Node, files: seq<Path>, baseUrl: string): Option<seq<Doc>> {
    if files == [] then Some([])
    else match LoadedDocs(root, files[..|files| - 1], baseUrl)
      case None => None
      case Some(docs) =>
        match ReadFile(root, files[|files| - 1])
        case None => None
        case Some(content) => Some(docs + [Doc(Rel(files[|files| - 1]), content, baseUrl)])
  }

  datatype Outputs = Outputs(summary: string, full: string)

  /** The two texts the script writes, or None where it throws before writing them. */
  function Generated(docs: Option<Node>, baseUrl: string): Option<Outputs> {
    match docs
    case None => None
    case Some(File(_)) => None
    case Some(root) =>
      match LoadedDocs(root, InsertionSort(MdFiles(root, []), FileOrder), baseUrl)
      case None => None
      case Some(pages) => Some(Texts(pages, baseUrl))
  }

  /** The summary between its header and footer, and the full text after its header. */
  function Texts(pages: seq<Doc>, baseUrl: string): Outputs {
    Outputs(SummaryHeader + SummaryOf(pages) + SummaryFooter(baseUrl), FullHeader + FullOf(pages))
  }

  lemma {:induction false} LoadedStopsAtFailure(root: Node, files: seq<Path>, baseUrl: string, i: nat)
    requires i <= |files| && LoadedDocs(root, files[..i], baseUrl).None?
    ensures LoadedDocs(root, files, baseUrl).None?
    decreases |files| - i
  {
    if i < |files| {
      assert files[..i + 1][..i] == files[..i];
      LoadedStopsAtFailure(root, files, baseUrl, i + 1);
    } else {
      assert files[..i] == files;
    }
  }

  /** One more file read: its page joins the pages. */
  lemma LoadedStep(root: Node, files: seq<Path>, baseUrl: string, i: nat, pages: seq<Doc>, content: string)
    requires i < |files| && LoadedDocs(root, files[..i], baseUrl) == Some(pages)
    requires ReadFile(root, files[i]) == Some(content)
    ensures LoadedDocs(root, files[..i + 1], baseUrl) == Some(pages + [Doc(Rel(files[i]), content, baseUrl)])
  {
    assert files[..i + 1][..i] == files[..i];
    assert files[..i + 1][i] == files[i];
  }

  lemma AppendAssoc(a: string, b: string, c: string)
    ensures (a + b) + c == a + (b + c)
  {
  }

  /** `getFiles(dir, fileList)`: appends the Markdown files below `dir` to `fileList`. */
  method GetFiles(dir: Node, dirPath: Path, fileList: seq<Path>) returns (r: seq<Path>)
    requires dir.Dir?
    ensures r == fileList + MdFiles(dir, dirPath)
    decreases dir
  {
    r := fileList;
    var files := dir.children;
    for i := 0 to |files|
      invariant r == fileList + MdFilesFirst(dir, dirPath, i)
    {
      var file := files[i];
      if file.node.Dir? {
        r := GetFiles(file.node, dirPath + [file.name], r);
      } else if IsMarkdownName(file.name) {
        r := r + [dirPath + [file.name]];
      }
    }
  }

  /**
   * The script from the listing to the two texts; `docs` is the content
   * directory (None where it does not exist) and `baseUrl` stands for `SITE_URL`.
   */
  method Generate(docs: Option<Node>, baseUrl: string) returns (r: Option<Outputs>)
    ensures r == Generated(docs, baseUrl)
  {
    if docs.None? || docs.value.File? {
      return None;
    }
    var root := docs.value;
    var allFiles := GetFiles(root, [], []);
    assert allFiles == MdFiles(root, []);
    allFiles := SortFiles(allFiles);
    r := Render(root, allFiles, baseUrl);
  }

  /** The `for (const filePath of allFiles)` loop and the footer after it. */
  method Render(root: Node, allFiles: seq<Path>, baseUrl: string) returns (r: Option<Outputs>)
    ensures r == match LoadedDocs(root, allFiles, baseUrl) case None => None case Some(pages) => Some(Texts(pages, baseUrl))
  {
    var summary := SummaryHeader;
    var full := FullHeader;
    ghost var pages: seq<Doc> := [];
    for i := 0 to |allFiles|
      invariant LoadedDocs(root, allFiles[..i], baseUrl) == Some(pages)
      invariant summary == SummaryHeader + SummaryOf(pages)
      invariant full == FullHeader + FullOf(pages)
    {
      var filePath := allFiles[i];
      var relativePath := Rel(filePath);
      var content := ReadFile(root, filePath);
      if content.None? {
        assert allFiles[..i + 1][..i] == allFiles[..i];
        LoadedStopsAtFailure(root, allFiles, baseUrl, i + 1);
        return None;
      }
      var page := Doc(relativePath, content.value, baseUrl);
      LoadedStep(root, allFiles, baseUrl, i, pages, content.value);
      ConcatMapSnoc(pages, page, SummaryLine);
      ConcatMapSnoc(pages, page, FullBlock);
      AppendAssoc(SummaryHeader, SummaryOf(pages), SummaryLine(page));
      AppendAssoc(FullHeader, FullOf(pages), FullBlock(page));
      summary := summary + SummaryLine(page);
      full := full + FullBlock(page);
      pages := pages + [page];
    }
    assert allFiles[..|allFiles|] == allFiles;
    r := Some(Outputs(summary + SummaryFooter(baseUrl), full));
  }
}
