/**
 * The source side of the filesystem: an immutable tree whose directories list
 * their entries in `readdir` order. Lookups follow `path.join` + `existsSync`.
 */
module FileTree {
  import opened Wrappers

  type Path = seq<string>

  datatype Node = File(content: string) | Dir(children: seq<Entry>)
  datatype Entry = Entry(name: string, node: Node)

  /** Index of the first entry called `name`. */
  function ChildIndex(es: seq<Entry>, name: string): (r: Option<nat>)
    ensures r.Some? ==> r.value < |es| && es[r.value].name == name
    ensures r.Some? ==> forall j :: 0 <= j < r.value ==> es[j].name != name
    ensures r.None? ==> forall j :: 0 <= j < |es| ==> es[j].name != name
  {
    if es == [] then None
    else if es[0].name == name then Some(0)
    else match ChildIndex(es[1..], name)
      case None => None
      case Some(i) => Some(i + 1)
  }

  /** The node at relative path `p` under `n`, if it exists. */
  function Lookup(n: Node, p: Path): Option<Node>
    decreases |p|
  {
    if p == [] then Some(n)
    else match n
      case File(_) => None
      case Dir(es) =>
        match ChildIndex(es, p[0])
        case None => None
        case Some(i) => Lookup(es[i].node, p[1..])
  }

  predicate DistinctNames(es: seq<Entry>) {
    forall i, j :: 0 <= i < j < |es| ==> es[i].name != es[j].name
  }

  /** What a real directory listing guarantees: no name twice in one directory. */
  predicate WellFormed(n: Node) {
    n.Dir? ==> DistinctNames(n.children) && forall i :: 0 <= i < |n.children| ==> WellFormed(n.children[i].node)
  }

  lemma ChildIndexOfDistinct(es: seq<Entry>, i: nat)
    requires DistinctNames(es) && i < |es|
    ensures ChildIndex(es, es[i].name) == Some(i)
  {
  }
}
