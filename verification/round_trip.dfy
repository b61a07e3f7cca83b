/**
 * The whole GraphQL round trip on a scraped document: `__flatten` and
 * `__merge` give the flat list, the list travels as JSON (names and sizes
 * come back unchanged), and `__reassembleTree` rebuilds a tree from it. When
 * every element's `words` is a non-empty trimmed string without ">", and the
 * labels are distinct and not "root", the rebuilt tree is the document's own
 * tree of `words` and `num_finalgood`, with every list of siblings reversed.
 */
module RoundTrip {
  import opened Options
  import opened Strings
  import Flatten
  import opened FlattenDocument
  import opened Tuples
  import opened Reassemble

  type Size = Option<Flatten.Value>

  /** Words that survive the trip: present, non-empty, trimmed, and without ">". */
  predicate GoodWords(w: Option<string>) {
    w.Some? && w.value != "" && Trimmed(w.value) && '>' !in w.value
  }

  /** Every element below `e` has good words. */
  predicate Named(e: Element)
    decreases e
  {
    forall k :: 0 <= k < |e.children| ==> GoodWords(Attr(e.children[k], "words")) && Named(e.children[k])
  }

  /** No two slots share a label, and none is labelled "root". */
  predicate LabelsDistinct(slots: seq<Slot>) {
    && (forall j, k :: 0 <= j < k < |slots| ==> Flatten.Show(slots[j].name) != Flatten.Show(slots[k].name))
    && (forall j :: 0 <= j < |slots| ==> Flatten.Show(slots[j].name) != "root")
  }

  /** The flat records as `JSON.parse` hands them to `__reassembleTree`: the name is read as a string. */
  function AsTuples(recs: seq<Flatten.FlatRecord>): (r: seq<Record<Size>>)
    ensures |r| == |recs|
    ensures forall k :: 0 <= k < |recs| ==> r[k] == Record(Flatten.Show(recs[k].name), recs[k].size)
  {
    seq(|recs|, k requires 0 <= k < |recs| => Record(Flatten.Show(recs[k].name), recs[k].size))
  }

  /** The entry `__reassembleTree` makes of one reference slot. */
  function EntryOf(s: Slot): Entry<Size> {
    Decompose(Record(Flatten.Show(s.name), SizeValue(s.size)))
  }

  /** The entries of the flat list are the reference slots' entries, one for one. */
  lemma EntriesOfSlots(slots: seq<Slot>)
    ensures DecomposeAll(AsTuples(Records(slots))) == Mapped(EntryOf, slots)
  {
  }

  // ---------------------------------------------------------------------
  // The reference as a forest of entries

  /** A label onto which children chain: none at the top, else a non-empty trimmed string. */
  predicate LineOk(parent: Option<string>) {
    parent.None? || (parent.value != "" && Trimmed(parent.value))
  }

  /** The parent id of the entries chained onto `parent`. */
  function PidOf(parent: Option<string>): string {
    if parent.Some? then parent.value else "root"
  }

  /** The entries of the reference slots, arranged as the element tree they come from: one tree per child from `i` on. */
  function NodesOf(e: Element, i: nat, parent: Option<string>): (r: seq<Node<Size>>)
    requires i <= |e.children|
    ensures |r| == |e.children| - i
    decreases e, 0
  {
    seq(|e.children| - i, k requires 0 <= k < |e.children| - i => NodeOf(e.children[i + k], parent))
  }

  lemma NodesCons(e: Element, i: nat, parent: Option<string>)
    requires i < |e.children|
    ensures NodesOf(e, i, parent) == [NodeOf(e.children[i], parent)] + NodesOf(e, i + 1, parent)
  {
  }

  /** The entry tree of element `c`, its label chained onto `parent`. */
  function NodeOf(c: Element, parent: Option<string>): Node<Size>
    decreases c, 1
  {
    var name := Flatten.Chain(parent, Attr(c, "words"));
    Node(Decompose(Record(Flatten.Show(name), SizeValue(Attr(c, "num_finalgood")))), NodesOf(c, 0, name))
  }

  /** The reference slots list the entry forest in pre-order. */
  lemma {:induction false} NodesInOrder(e: Element, i: nat, prop: string, parent: Option<string>)
    requires i <= |e.children|
    ensures MembersOf(NodesOf(e, i, parent)) == Mapped(EntryOf, Expected(e, i, prop, parent))
    decreases e, |e.children| - i, 1
  {
    if i < |e.children| {
      InOrderChild(e, i, prop, parent);
      InOrderRest(e, i, prop, parent);
      InOrderStep(e, i, prop, parent);
    }
  }

  /** Child `i`'s own descendants are listed in pre-order. */
  lemma {:induction false} InOrderChild(e: Element, i: nat, prop: string, parent: Option<string>)
    requires i < |e.children|
    ensures var c, key := e.children[i], Flatten.ElementKey(prop, i);
      MembersOf(NodesOf(c, 0, Flatten.Chain(parent, Attr(c, "words"))))
        == Mapped(EntryOf, Expected(c, 0, key + ".synset", Flatten.Chain(parent, Attr(c, "words"))))
    decreases e, |e.children| - i, 0
  {
    var c := e.children[i];
    NodesInOrder(c, 0, Flatten.ElementKey(prop, i) + ".synset", Flatten.Chain(parent, Attr(c, "words")));
  }

  /** Children `i + 1..` are listed in pre-order. */
  lemma {:induction false} InOrderRest(e: Element, i: nat, prop: string, parent: Option<string>)
    requires i < |e.children|
    ensures MembersOf(NodesOf(e, i + 1, parent)) == Mapped(EntryOf, Expected(e, i + 1, prop, parent))
    decreases e, |e.children| - i, 0
  {
    NodesInOrder(e, i + 1, prop, parent);
  }

  /** Child `i` and its descendants come first, then children `i + 1..`, in both the entry forest and the slots. */
  lemma InOrderStep(e: Element, i: nat, prop: string, parent: Option<string>)
    requires i < |e.children|
    requires var c, key := e.children[i], Flatten.ElementKey(prop, i);
      MembersOf(NodesOf(c, 0, Flatten.Chain(parent, Attr(c, "words"))))
        == Mapped(EntryOf, Expected(c, 0, key + ".synset", Flatten.Chain(parent, Attr(c, "words"))))
    requires MembersOf(NodesOf(e, i + 1, parent)) == Mapped(EntryOf, Expected(e, i + 1, prop, parent))
    ensures MembersOf(NodesOf(e, i, parent)) == Mapped(EntryOf, Expected(e, i, prop, parent))
  {
    var c, key := e.children[i], Flatten.ElementKey(prop, i);
    var name := Flatten.Chain(parent, Attr(c, "words"));
    var n := NodeOf(c, parent);
    var head := Slot(key, name, Attr(c, "num_finalgood"));
    var inner, rest := Expected(c, 0, key + ".synset", name), Expected(e, i + 1, prop, parent);
    NodesCons(e, i, parent);
    assert Expected(e, i, prop, parent) == [head] + inner + rest;
    MembersOfAppend([n], NodesOf(e, i + 1, parent));
    MembersOfSingle(n);
    MappedThree(head, inner, rest);
  }

  lemma MappedThree(head: Slot, inner: seq<Slot>, rest: seq<Slot>)
    ensures Mapped(EntryOf, [head] + inner + rest) == [EntryOf(head)] + Mapped(EntryOf, inner) + Mapped(EntryOf, rest)
  {
    MappedAppend(EntryOf, [head] + inner, rest);
    MappedAppend(EntryOf, [head], inner);
  }

  /** A chained label of two non-empty trimmed parts is non-empty and trimmed. */
  lemma ChainTrimmed(p: string, w: string)
    requires p != "" && Trimmed(p) && w != "" && Trimmed(w)
    ensures var s := p + " > " + w; s != "" && Trimmed(s)
  {
    var s := p + " > " + w;
    assert s[0] == p[0] && s[|s| - 1] == w[|w| - 1];
  }

  /** The label of a child with good words chains onto its parent's label, and children can chain onto it. */
  lemma ChildLabel(parent: Option<string>, words: Option<string>)
    requires LineOk(parent) && GoodWords(words)
    ensures var name := Flatten.Chain(parent, words);
      && name.Some? && LineOk(name)
      && ParentPath(name.value) == PidOf(parent)
      && DisplayName(name.value) == words.value
  {
    var w := words.value;
    TrimmedIsTrim(w);
    if parent.Some? {
      ChainedLabelParent(parent.value, w);
      ChainTrimmed(parent.value, w);
    } else {
      NameParts(w);
    }
  }

  lemma UnderCons<S>(n: Node<S>, rest: seq<Node<S>>, p: string)
    requires n.entry.pid == p && Under(n.children, n.entry.id) && Under(rest, p)
    ensures Under([n] + rest, p)
  {
    forall k | 0 <= k < |rest| + 1
      ensures ([n] + rest)[k].entry.pid == p && Under(([n] + rest)[k].children, ([n] + rest)[k].entry.id)
    {
      if k > 0 {
        assert ([n] + rest)[k] == rest[k - 1];
      }
    }
  }

  /** Each entry's parent id is its parent element's label, and the top entries' is "root". */
  lemma {:induction false} NodesUnder(e: Element, i: nat, parent: Option<string>)
    requires i <= |e.children| && Named(e) && LineOk(parent)
    ensures Under(NodesOf(e, i, parent), PidOf(parent))
    decreases e, |e.children| - i
  {
    if i < |e.children| {
      var c := e.children[i];
      var name := Flatten.Chain(parent, Attr(c, "words"));
      ChildLabel(parent, Attr(c, "words"));
      NodesUnder(c, 0, name);
      NodesUnder(e, i + 1, parent);
      NodesCons(e, i, parent);
      UnderCons(NodeOf(c, parent), NodesOf(e, i + 1, parent), PidOf(parent));
    }
  }

  /** Distinct labels other than "root" give distinct ids other than "root". */
  lemma DistinctEntries(slots: seq<Slot>)
    requires LabelsDistinct(slots)
    ensures DistinctIds(Mapped(EntryOf, slots)) && NoRootId(Mapped(EntryOf, slots))
  {
  }

  /**
   * The flat list of a document with good words and distinct labels
   * decomposes into entries with distinct ids, listed parents first: the
   * order `__reassembleTree`'s sort leaves alone.
   */
  lemma FlatListParentFirst(roots: seq<Element>)
    requires WellFormed(Element([], roots)) && Named(Element([], roots))
    requires LabelsDistinct(Expected(Element([], roots), 0, "synset", None))
    ensures var entries := DecomposeAll(AsTuples(Flatten.Merge(Flatten.Flatten(Document(roots)))));
      DistinctIds(entries) && ParentFirst(entries)
      && Forest(entries) == ReversedEach(NodesOf(Element([], roots), 0, None))
  {
    var root := Element([], roots);
    var slots := Expected(root, 0, "synset", None);
    FlattenDocumentRecords(roots);
    EntriesOfSlots(slots);
    NodesInOrder(root, 0, "synset", None);
    NodesUnder(root, 0, None);
    DistinctEntries(slots);
    PreOrderForest(NodesOf(root, 0, None));
  }

  // ---------------------------------------------------------------------
  // The document's own tree

  /** An element as a tree: its trimmed words, its size, and its children last first. */
  function ElementTree(c: Element): Tree<Size>
    decreases c, 1
  {
    Tree(Trim(Flatten.Show(Attr(c, "words"))), SizeValue(Attr(c, "num_finalgood")), ChildTrees(c))
  }

  /** The trees of the children of `e`, last first. */
  function ChildTrees(e: Element): (r: seq<Tree<Size>>)
    ensures |r| == |e.children|
    decreases e, 0
  {
    var m := |e.children|;
    seq(m, k requires 0 <= k < m => ElementTree(e.children[m - 1 - k]))
  }

  /** The top-level elements as trees, in document order. */
  function TopTrees(roots: seq<Element>): (r: seq<Tree<Size>>)
    ensures |r| == |roots|
  {
    seq(|roots|, k requires 0 <= k < |roots| => ElementTree(roots[k]))
  }

  lemma StripAllAppend<S>(a: seq<Node<S>>, b: seq<Node<S>>)
    ensures StripAll(a + b) == StripAll(a) + StripAll(b)
  {
    var r := StripAll(a + b);
    forall k | 0 <= k < |a| + |b|
      ensures r[k] == (StripAll(a) + StripAll(b))[k]
    {
      StripAllAt(a + b, k);
      if k < |a| {
        StripAllAt(a, k);
        assert (a + b)[k] == a[k];
      } else {
        StripAllAt(b, k - |a|);
        assert (a + b)[k] == b[k - |a|];
      }
    }
  }

  lemma {:induction false} StripAllAt<S>(ns: seq<Node<S>>, k: nat)
    requires k < |ns|
    ensures StripAll(ns)[k] == Strip(ns[k])
    decreases k
  {
    if k > 0 {
      StripAllAt(ns[1..], k - 1);
    }
  }

  /** Trees that each strip to the matching tree of `ts` read backwards give `ts` once the list is reversed. */
  lemma {:induction false} StripReversed<S>(ns: seq<Node<S>>, ts: seq<Tree<S>>)
    requires |ns| == |ts|
    requires forall k :: 0 <= k < |ns| ==> Strip(Reversed(ns[k])) == ts[|ns| - 1 - k]
    ensures StripAll(ReversedAll(ns)) == ts
    decreases |ns|
  {
    if |ns| > 0 {
      var n := |ns|;
      forall k | 0 <= k < n - 1
        ensures Strip(Reversed(ns[1..][k])) == ts[..n - 1][n - 2 - k]
      {
        assert ns[1..][k] == ns[k + 1];
      }
      StripReversed(ns[1..], ts[..n - 1]);
      StripAllAppend(ReversedAll(ns[1..]), [Reversed(ns[0])]);
      assert ts == ts[..n - 1] + [ts[n - 1]];
    }
  }

  /** Trees that each strip to the matching tree of `ts` give `ts` when reversed in place. */
  lemma {:induction false} StripEach<S>(ns: seq<Node<S>>, ts: seq<Tree<S>>)
    requires |ns| == |ts|
    requires forall k :: 0 <= k < |ns| ==> Strip(Reversed(ns[k])) == ts[k]
    ensures StripAll(ReversedEach(ns)) == ts
    decreases |ns|
  {
    if |ns| > 0 {
      forall k | 0 <= k < |ns| - 1
        ensures Strip(Reversed(ns[1..][k])) == ts[1..][k]
      {
        assert ns[1..][k] == ns[k + 1];
      }
      StripEach(ns[1..], ts[1..]);
      StripAllAppend([Reversed(ns[0])], ReversedEach(ns[1..]));
      assert ts == [ts[0]] + ts[1..];
    }
  }

  /** The reversed entry trees of the children of `e`, stripped, are the children's element trees, last first. */
  lemma {:induction false} StripNodes(e: Element, parent: Option<string>)
    requires Named(e) && LineOk(parent)
    ensures StripAll(ReversedAll(NodesOf(e, 0, parent))) == ChildTrees(e)
    decreases e, 1
  {
    var ns, ts, m := NodesOf(e, 0, parent), ChildTrees(e), |e.children|;
    forall k | 0 <= k < m
      ensures Strip(Reversed(ns[k])) == ts[m - 1 - k]
    {
      StripChild(e, k, parent);
    }
    StripReversed(ns, ts);
  }

  /** Child `i`'s entry tree, reversed and stripped, is its element tree. */
  lemma {:induction false} StripChild(e: Element, i: nat, parent: Option<string>)
    requires i < |e.children| && Named(e) && LineOk(parent)
    ensures Strip(Reversed(NodeOf(e.children[i], parent))) == ElementTree(e.children[i])
    decreases e, 0
  {
    var c := e.children[i];
    ChildLabel(parent, Attr(c, "words"));
    StripNodes(c, Flatten.Chain(parent, Attr(c, "words")));
    NodeTree(c, parent);
  }

  /** One element's entry tree, reversed and stripped, is its element tree once its children's are. */
  lemma NodeTree(c: Element, parent: Option<string>)
    requires LineOk(parent) && GoodWords(Attr(c, "words"))
    requires StripAll(ReversedAll(NodesOf(c, 0, Flatten.Chain(parent, Attr(c, "words"))))) == ChildTrees(c)
    ensures Strip(Reversed(NodeOf(c, parent))) == ElementTree(c)
  {
    ChildLabel(parent, Attr(c, "words"));
    TrimmedIsTrim(Attr(c, "words").value);
  }

  /** The top entry trees, each reversed and stripped, are the top elements' trees in order. */
  lemma StripTops(roots: seq<Element>)
    requires Named(Element([], roots))
    ensures StripAll(ReversedEach(NodesOf(Element([], roots), 0, None))) == TopTrees(roots)
  {
    var ns, ts := NodesOf(Element([], roots), 0, None), TopTrees(roots);
    forall k | 0 <= k < |roots|
      ensures Strip(Reversed(ns[k])) == ts[k]
    {
      StripChild(Element([], roots), k, None);
    }
    StripEach(ns, ts);
  }

  // ---------------------------------------------------------------------
  // The round trip

  /**
   * Flatten, merge, send through JSON, and reassemble: for a document whose
   * elements all have good words and whose labels are distinct and not
   * "root", the result is the document's own tree, each node named by its
   * trimmed `words` and sized by its `num_finalgood`, top-level elements in
   * document order and every list of children reversed.
   */
  method FlattenThenReassemble(roots: seq<Element>) returns (trees: seq<Tree<Size>>)
    requires WellFormed(Element([], roots)) && Named(Element([], roots))
    requires LabelsDistinct(Expected(Element([], roots), 0, "synset", None))
    ensures trees == TopTrees(roots)
  {
    var list := AsTuples(Flatten.Merge(Flatten.Flatten(Document(roots))));
    trees := ReassembleTree(list);
    FlatListParentFirst(roots);
    StripTops(roots);
  }
}
