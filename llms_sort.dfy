/**
 * The ordering step of scripts/generate-llms-txt.ts: `allFiles.sort(...)` with
 * the priority-prefix comparator. JavaScript's sort is stable, and the
 * comparator is a total preorder (ComparatorTotalPreorder), so every stable
 * sort gives the same order; it is modelled by insertion sort on the array.
 */
module LlmsSort {
  import opened JsText
  import opened FileTree
  import opened StableSort

  const Priority: seq<string> := ["index.mdx", "architecture", "modules", "core-api", "ui", "guides"]

  /** `priority.findIndex((p) => rel.startsWith(p))`: the first entry that is a prefix, or -1. */
  function PriorityIndex(rel: string): (r: int)
    ensures -1 <= r < |Priority|
    ensures r >= 0 ==> StartsWith(rel, Priority[r])
    ensures r >= 0 ==> forall i :: 0 <= i < r ==> !StartsWith(rel, Priority[i])
    ensures r == -1 <==> forall i :: 0 <= i < |Priority| ==> !StartsWith(rel, Priority[i])
  {
    PriorityFrom(rel, 0)
  }

  function PriorityFrom(rel: string, from: nat): (r: int)
    requires from <= |Priority|
    ensures r == -1 || from <= r < |Priority|
    ensures r >= 0 ==> StartsWith(rel, Priority[r])
    ensures r >= 0 ==> forall i :: from <= i < r ==> !StartsWith(rel, Priority[i])
    ensures r == -1 <==> forall i :: from <= i < |Priority| ==> !StartsWith(rel, Priority[i])
    decreases |Priority| - from
  {
    if from == |Priority| then -1
    else if StartsWith(rel, Priority[from]) then from
    else PriorityFrom(rel, from + 1)
  }

  /** The comparator passed to `allFiles.sort`, on the two relative paths. */
  function Compare(relA: string, relB: string): int {
    var pA := PriorityIndex(relA);
    var pB := PriorityIndex(relB);
    if pA != -1 && pB != -1 then pA - pB
    else if pA != -1 then -1
    else if pB != -1 then 1
    else LexCompare(relA, relB)
  }

  /** `path.relative(CONTENT_DIR, file)` for a file at `p` below the content root. */
  function Rel(p: Path): string {
    JoinPath(p)
  }

  /** The comparator as `allFiles.sort` receives it, on the collected paths. */
  function FileOrder(a: Path, b: Path): int {
    Compare(Rel(a), Rel(b))
  }

  /** The priority class of a file: the index of its first matching entry, or -1. */
  function FileClass(p: Path): int {
    PriorityIndex(Rel(p))
  }

  /**
   * The comparator orders matched paths by the index of their first matching
   * entry (equal indices tie), puts every matched path first, and orders the
   * rest by string order; it is a total preorder.
   */
  lemma ComparatorTotalPreorder(a: string, b: string, c: string)
    ensures PriorityIndex(a) >= 0 && PriorityIndex(b) == -1 ==> Compare(a, b) < 0
    ensures PriorityIndex(a) >= 0 && PriorityIndex(b) >= 0 ==>
      (Compare(a, b) < 0 <==> PriorityIndex(a) < PriorityIndex(b)) &&
      (Compare(a, b) == 0 <==> PriorityIndex(a) == PriorityIndex(b))
    ensures PriorityIndex(a) == -1 && PriorityIndex(b) == -1 ==>
      (Compare(a, b) < 0 <==> LexCompare(a, b) < 0) && (Compare(a, b) == 0 <==> a == b)
    ensures Compare(a, b) < 0 <==> Compare(b, a) > 0
    ensures Compare(a, b) == 0 <==> Compare(b, a) == 0
    ensures Compare(a, b) <= 0 && Compare(b, c) <= 0 ==> Compare(a, c) <= 0
  {
    LexCompareSigns(a, b);
    if Compare(a, b) <= 0 && Compare(b, c) <= 0 && PriorityIndex(a) == -1 {
      LexCompareTransitive(a, b, c);
    }
  }

  lemma FileOrderIsConsistent()
    ensures TotalPreorder(FileOrder) && ClassesTie(FileOrder, FileClass)
  {
    forall x: Path, y: Path, z: Path
      ensures FileOrder(x, y) < 0 <==> FileOrder(y, x) > 0
      ensures FileOrder(x, y) <= 0 && FileOrder(y, z) <= 0 ==> FileOrder(x, z) <= 0
    {
      ComparatorTotalPreorder(Rel(x), Rel(y), Rel(z));
    }
  }

  /**
   * The files in sorted order: ordered by the comparator, a permutation of the
   * traversal order, and files of one priority class keep their traversal order.
   */
  lemma SortedFiles(files: seq<Path>)
    ensures SortedBy(InsertionSort(files, FileOrder), FileOrder)
    ensures multiset(InsertionSort(files, FileOrder)) == multiset(files)
    ensures forall k :: 0 <= k < |Priority| ==>
      InClass(InsertionSort(files, FileOrder), FileClass, k) == InClass(files, FileClass, k)
  {
    FileOrderIsConsistent();
    InsertionSortCorrect(files, FileOrder, FileClass);
  }

  /**
   * In sorted order, files that match a priority entry come first, by entry;
   * the others follow in string order.
   */
  lemma PriorityOrder(files: seq<Path>)
    ensures var r := InsertionSort(files, FileOrder);
      forall i, j :: 0 <= i < j < |r| ==>
        && (FileClass(r[j]) >= 0 ==> 0 <= FileClass(r[i]) <= FileClass(r[j]))
        && (FileClass(r[i]) == -1 ==> FileClass(r[j]) == -1 && LexCompare(Rel(r[i]), Rel(r[j])) <= 0)
  {
    var r := InsertionSort(files, FileOrder);
    SortedFiles(files);
    forall i, j | 0 <= i < j < |r|
      ensures FileClass(r[j]) >= 0 ==> 0 <= FileClass(r[i]) <= FileClass(r[j])
      ensures FileClass(r[i]) == -1 ==> FileClass(r[j]) == -1 && LexCompare(Rel(r[i]), Rel(r[j])) <= 0
    {
      assert FileOrder(r[i], r[j]) <= 0;
      ComparatorTotalPreorder(Rel(r[i]), Rel(r[j]), Rel(r[j]));
      LexCompareSigns(Rel(r[i]), Rel(r[j]));
    }
  }

  /** `allFiles.sort(comparator)` on the collected paths. */
  method SortFiles(files: seq<Path>) returns (sorted: seq<Path>)
    ensures sorted == InsertionSort(files, FileOrder)
  {
    var a := new Path[|files|](i requires 0 <= i < |files| => files[i]);
    assert a[..] == files;
    SortInPlace(a, FileOrder);
    sorted := a[..];
  }
}
