/** gNMI paths and the key-leaf rule that the diff normalisation applies to them. */
module Paths {

  /** A path element: a node name and, for a list entry, the values of the entry's keys. */
  datatype Elem = Elem(name: string, key: map<string, string>)

  type Path = seq<Elem>

  function Last(p: Path): Elem
    requires |p| > 0
  {
    p[|p| - 1]
  }

  function Parent(p: Path): Path
    requires |p| > 0
  {
    p[..|p| - 1]
  }

  /** The leaf below list entry `entry` that holds the value of its key `k`. */
  function KeyLeaf(entry: Path, k: string): Path {
    entry + [Elem(k, map[])]
  }

  /** The last element is named like a key of the element before it: the trimming guard. */
  predicate NamesKeyOfParent(p: Path) {
    |p| > 1 && p[|p| - 1].name in p[|p| - 2].key
  }

  /** The value that the element before the last one gives to the key named last. */
  function KeyValue(p: Path): string
    requires NamesKeyOfParent(p)
  {
    p[|p| - 2].key[p[|p| - 1].name]
  }

  function NormalisePath(p: Path): Path {
    if NamesKeyOfParent(p) then Parent(p) else p
  }

  /** `q` is the leaf that holds a key value of the list entry above it. */
  predicate IsKeyLeaf(q: Path) {
    NamesKeyOfParent(q) && Last(q).key == map[]
  }

  /** `q` is a key leaf of a list entry that `p` is, or lies below. */
  predicate KeyLeafOn(q: Path, p: Path) {
    IsKeyLeaf(q) && Parent(q) <= p
  }

  /** A list entry: its last element carries keys. */
  predicate IsEntry(e: Path) {
    |e| > 0 && Last(e).key != map[]
  }

  lemma KeyLeafOfEntry(e: Path, k: string)
    requires |e| > 0 && k in Last(e).key
    ensures IsKeyLeaf(KeyLeaf(e, k)) && Parent(KeyLeaf(e, k)) == e
    ensures KeyValue(KeyLeaf(e, k)) == Last(e).key[k]
  {
  }

  lemma PrefixTransitive(p: Path, q: Path, r: Path)
    requires p <= q <= r
    ensures p <= r
  {
  }

  /** Whatever is trimmed becomes a list entry; nothing that comes out is a key leaf. */
  lemma NormalisedIsNoKeyLeaf(p: Path)
    ensures !IsKeyLeaf(NormalisePath(p))
    ensures NamesKeyOfParent(p) ==> IsEntry(NormalisePath(p))
    ensures NormalisePath(p) <= p
  {
  }

  // --- Normalising twice

  /** Sibling names are unique (section 6.2.1 of RFC 7950): an element named like a key of the
      list entry above it is that key leaf, so it ends the path and has no keys itself. */
  predicate SiblingNamesUnique(p: Path) {
    forall i | 0 <= i < |p| - 1 && p[i + 1].name in p[i].key ::
      i + 2 == |p| && p[i + 1].key == map[]
  }

  /** The last two elements are both named like a key of the element before them. */
  predicate ShrinksTwice(p: Path) {
    |p| > 2 && p[|p| - 1].name in p[|p| - 2].key && p[|p| - 2].name in p[|p| - 3].key
  }

  lemma NormaliseIdempotentIff(p: Path)
    ensures NormalisePath(NormalisePath(p)) == NormalisePath(p) <==> !ShrinksTwice(p)
  {
  }

  lemma NormaliseIdempotent(p: Path)
    requires SiblingNamesUnique(p)
    ensures NormalisePath(NormalisePath(p)) == NormalisePath(p)
    ensures !NamesKeyOfParent(NormalisePath(p))
    ensures SiblingNamesUnique(NormalisePath(p))
  {
  }

  /** /a[b=1]/b[c=2]/c breaks sibling uniqueness and is trimmed on two successive passes. */
  lemma NormaliseShrinksTwice()
    ensures var p := [Elem("a", map["b" := "1"]), Elem("b", map["c" := "2"]), Elem("c", map[])];
            NormalisePath(p) == p[..2] && NormalisePath(NormalisePath(p)) == p[..1]
  {
  }
}
