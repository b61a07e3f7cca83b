/**
 * The tree reassembler (`__reassembleTree` and `__construct`): every tuple
 * name is decomposed into its display name (the last ">" segment), its id
 * (the whole name) and its parent id (the segments before, or "root"); the
 * entries are sorted so that parents come first; a backward pass then moves
 * every entry under its parent; finally ids are dropped.
 */
module Reassemble {
  import opened Options
  import opened Strings
  import opened Tuples
  import Flatten

  // ---------------------------------------------------------------------
  // Names

  /** The parent id: the segments before the last, rejoined with ">" and trimmed; "root" without a ">". */
  function ParentPath(name: string): string {
    var parts := Split(name, ">");
    if |parts| > 1 then Trim(Join(parts[..|parts| - 1], ">")) else "root"
  }

  /** The display name: the last ">" segment, trimmed. */
  function DisplayName(name: string): string {
    var parts := Split(name, ">");
    Trim(parts[|parts| - 1])
  }

  /** Both parts of a name, located at its last ">". */
  lemma NameParts(name: string)
    ensures '>' !in name ==> ParentPath(name) == "root" && DisplayName(name) == Trim(name)
    ensures '>' in name ==>
      var k := LastIndex(name, '>');
      ParentPath(name) == Trim(name[..k]) && DisplayName(name) == Trim(name[k + 1..])
  {
    assert ">" == ['>'];
    SplitOnCharCount(name, '>');
    if '>' in name {
      SplitOnCharInit(name, '>');
      SplitOnCharLastPiece(name, '>');
    }
  }

  /** A parent id is strictly shorter than the name it comes from, unless it is "root". */
  lemma ParentPathShorter(name: string)
    ensures '>' in name ==> |ParentPath(name)| < |name|
    ensures '>' !in name ==> ParentPath(name) == "root"
  {
    NameParts(name);
  }

  /** No name other than "root" is its own parent. */
  lemma ParentPathDiffers(name: string)
    ensures name == "root" <==> ParentPath(name) == name
  {
    ParentPathShorter(name);
    assert '>' !in "root";
  }

  lemma ChainedShape(p: string, w: string)
    ensures var name := p + " > " + w;
      && name[|p| + 1] == '>'
      && name[..|p| + 1] == p + " "
      && name[|p| + 2..] == " " + w
  {
  }

  lemma TrimLeadingSpace(w: string)
    ensures Trim(" " + w) == Trim(w)
  {
    assert (" " + w)[1..] == w;
  }

  lemma TrimTrailingSpace(p: string)
    requires Trimmed(p)
    ensures Trim(p + " ") == p
  {
    TrimPadded(p, "", " ");
    assert "" + p + " " == p + " ";
  }

  /**
   * A chained label decomposes back into its parts: the parent id of
   * `p > w` is `p`, and its display name is `w` trimmed, for a trimmed `p`
   * and a `w` without ">".
   */
  lemma DecomposeChained(p: string, w: string)
    requires Trimmed(p) && '>' !in w
    ensures ParentPath(p + " > " + w) == p
    ensures DisplayName(p + " > " + w) == Trim(w)
  {
    var name := p + " > " + w;
    ChainedShape(p, w);
    assert '>' !in " " + w;
    LastIndexUnique(name, '>', |p| + 1);
    NameParts(name);
    TrimTrailingSpace(p);
    TrimLeadingSpace(w);
  }

  /**
   * The flattener's labels and the reassembler's ids fit together: the parent
   * id of an element's label is its parent's label, and its display name is
   * its own words, when the parent's label is a non-empty trimmed string and
   * the words hold no ">".
   */
  lemma ChainedLabelParent(parent: string, words: string)
    requires parent != "" && Trimmed(parent) && '>' !in words
    ensures var chained := Flatten.Chain(Some(parent), Some(words));
      chained.Some? && ParentPath(chained.value) == parent && DisplayName(chained.value) == Trim(words)
  {
    DecomposeChained(parent, words);
  }

  /** The depth of an id: "root" is 0, a name without ">" is 1, and each ">" adds one. */
  function Rank(id: string): nat
    decreases |id|
  {
    if id == "root" then 0
    else if '>' !in id then 1
    else
      ParentPathShorter(id);
      1 + Rank(ParentPath(id))
  }

  /** Moving to the parent id lowers the rank, which bounds the swaps of the sort. */
  lemma RankDecreases(id: string)
    requires id != "root"
    ensures Rank(ParentPath(id)) < Rank(id)
  {
    ParentPathShorter(id);
  }

  // ---------------------------------------------------------------------
  // Entries and the parent-first sort

  /** A tuple prepared for reassembly: display name, size, id (the full name) and parent id. */
  datatype Entry<S> = Entry(name: string, size: S, id: string, pid: string)

  /** The entry `__reassembleTree` builds for one tuple. */
  function Decompose<S>(r: Record<S>): Entry<S> {
    Entry(DisplayName(r.name), r.size, r.name, ParentPath(r.name))
  }

  /**
   * The entries of a whole list: one per tuple, in order, each parent id
   * derived from its own id, and each showing the tuple's display name and size.
   */
  function DecomposeAll<S>(list: seq<Record<S>>): (r: seq<Entry<S>>)
    ensures |r| == |list|
    ensures forall k :: 0 <= k < |list| ==> r[k] == Decompose(list[k])
    ensures PidsDerived(r)
    ensures Labels(r) == RecordLabels(list)
  {
    seq(|list|, k requires 0 <= k < |list| => Decompose(list[k]))
  }

  /** Every parent id is derived from its own id, as for the entries `__reassembleTree` builds. */
  predicate PidsDerived<S>(a: seq<Entry<S>>) {
    forall k :: 0 <= k < |a| ==> a[k].pid == ParentPath(a[k].id)
  }

  /** `a.findIndex(e => e.id === id)` */
  function FirstWithId<S>(a: seq<Entry<S>>, id: string): (r: int)
    ensures -1 <= r < |a|
    ensures r >= 0 ==> a[r].id == id && forall j :: 0 <= j < r ==> a[j].id != id
    ensures r == -1 ==> forall j :: 0 <= j < |a| ==> a[j].id != id
  {
    if |a| == 0 then -1
    else if a[0].id == id then 0
    else
      var r := FirstWithId(a[1..], id);
      if r < 0 then -1 else r + 1
  }

  lemma FirstWithIdIs<S>(a: seq<Entry<S>>, id: string, f: int)
    requires -1 <= f < |a|
    requires f >= 0 ==> a[f].id == id && forall j :: 0 <= j < f ==> a[j].id != id
    requires f == -1 ==> forall j :: 0 <= j < |a| ==> a[j].id != id
    ensures FirstWithId(a, id) == f
  {
  }

  /** The first entry carrying the parent id of entry `k`, if any, does not come after it. */
  predicate ParentBefore<S>(a: seq<Entry<S>>, k: nat)
    requires k < |a|
  {
    var f := FirstWithId(a, a[k].pid);
    f == -1 || f <= k
  }

  /** Every entry's parent, where there is one, comes first. */
  predicate ParentFirst<S>(a: seq<Entry<S>>) {
    forall k :: 0 <= k < |a| ==> ParentBefore(a, k)
  }

  /** `lut` maps every id of `a` to the last position holding it, and nothing else. */
  predicate LastIndexTable<S>(a: seq<Entry<S>>, lut: map<string, int>) {
    && (forall k :: 0 <= k < |a| ==> a[k].id in lut)
    && (forall id :: id in lut ==> 0 <= lut[id] < |a| && a[lut[id]].id == id)
    && (forall id, k :: id in lut && lut[id] < k < |a| ==> a[k].id != id)
  }

  function Swap<T>(a: seq<T>, i: nat, j: nat): (r: seq<T>)
    requires i < |a| && j < |a|
    ensures |r| == |a| && r[i] == a[j] && r[j] == a[i]
    ensures forall k :: 0 <= k < |a| && k != i && k != j ==> r[k] == a[k]
    ensures multiset(r) == multiset(a)
  {
    a[i := a[j]][j := a[i]]
  }

  /** Swapping two entries behind the first holder of an id does not move that holder. */
  lemma SwapKeepsFirst<S>(a: seq<Entry<S>>, i: nat, j: nat, id: string)
    requires i < j < |a|
    requires FirstWithId(a, id) == -1 || FirstWithId(a, id) < i
    ensures FirstWithId(Swap(a, i, j), id) == FirstWithId(a, id)
  {
    FirstWithIdIs(Swap(a, i, j), id, FirstWithId(a, id));
  }

  /** A swap at `i` and a later position keeps every earlier entry parent-first. */
  lemma SwapKeepsParentBefore<S>(a: seq<Entry<S>>, i: nat, j: nat)
    requires i < j < |a|
    requires forall k :: 0 <= k < i ==> ParentBefore(a, k)
    ensures forall k :: 0 <= k < i ==> ParentBefore(Swap(a, i, j), k)
  {
    forall k | 0 <= k < i
      ensures ParentBefore(Swap(a, i, j), k)
    {
      assert ParentBefore(a, k);
      assert Swap(a, i, j)[k] == a[k];
      SwapKeepsFirst(a, i, j, a[k].pid);
    }
  }

  /** Recording position `i` extends a table of the last positions among the first `i` entries by one. */
  lemma TableStep<S>(a: seq<Entry<S>>, lut: map<string, int>, i: nat)
    requires i < |a|
    requires forall k :: 0 <= k < i ==> a[k].id in lut
    requires forall id :: id in lut ==> 0 <= lut[id] < i && a[lut[id]].id == id
    requires forall id, k :: id in lut && lut[id] < k < i ==> a[k].id != id
    ensures var t := lut[a[i].id := i];
      && (forall k :: 0 <= k < i + 1 ==> a[k].id in t)
      && (forall id :: id in t ==> 0 <= t[id] < i + 1 && a[t[id]].id == id)
      && (forall id, k :: id in t && t[id] < k < i + 1 ==> a[k].id != id)
  {
  }

  /** What `HoistParent` keeps while it swaps. */
  ghost predicate Hoisting<S>(a0: seq<Entry<S>>, a: seq<Entry<S>>, i: nat) {
    && i < |a| == |a0| && multiset(a) == multiset(a0) && PidsDerived(a)
    && (forall k :: 0 <= k < i ==> a[k] == a0[k])
    && (forall k :: 0 <= k < i ==> ParentBefore(a, k))
  }

  /** One swap of `HoistParent` keeps what it promises and lowers the rank at position `i`. */
  lemma HoistStep<S>(a0: seq<Entry<S>>, a: seq<Entry<S>>, i: nat, fix: nat)
    requires Hoisting(a0, a, i) && i < fix && fix == FirstWithId(a, a[i].pid)
    ensures Hoisting(a0, Swap(a, i, fix), i)
    ensures Rank(Swap(a, i, fix)[i].id) < Rank(a[i].id)
    ensures !ParentBefore(a, i)
  {
    ParentPathDiffers(a[i].id);
    RankDecreases(a[i].id);
    SwapKeepsParentBefore(a, i, fix);
  }

  /**
   * The `while` inside `sort`: as long as the first entry carrying the parent
   * id of entry `i` lies further on, swap it into position `i`. Each swap
   * moves a strictly shallower id into position `i`, so the loop ends; the
   * entries before `i` stay put, and an entry already behind its parent is
   * left where it is.
   */
  method HoistParent<S>(a0: seq<Entry<S>>, i: nat) returns (a: seq<Entry<S>>)
    requires i < |a0| && PidsDerived(a0)
    requires forall k :: 0 <= k < i ==> ParentBefore(a0, k)
    ensures |a| == |a0| && multiset(a) == multiset(a0) && PidsDerived(a)
    ensures forall k :: 0 <= k < i ==> a[k] == a0[k]
    ensures forall k :: 0 <= k <= i ==> ParentBefore(a, k)
    ensures ParentBefore(a0, i) ==> a == a0
  {
    a := a0;
    var fix := FirstWithId(a, a[i].pid);
    HoistStart(a0, i);
    while fix != -1 && fix > i
      invariant Hoisting(a0, a, i)
      invariant fix == FirstWithId(a, a[i].pid)
      invariant ParentBefore(a0, i) ==> a == a0
      decreases Rank(a[i].id)
    {
      HoistStep(a0, a, i, fix);
      a := Swap(a, i, fix);
      fix := FirstWithId(a, a[i].pid);
    }
    HoistDone(a0, a, i, fix);
  }

  lemma HoistStart<S>(a0: seq<Entry<S>>, i: nat)
    requires i < |a0| && PidsDerived(a0)
    requires forall k :: 0 <= k < i ==> ParentBefore(a0, k)
    ensures Hoisting(a0, a0, i)
  {
  }

  /** When the loop of `HoistParent` stops, entry `i` is behind its parent too. */
  lemma HoistDone<S>(a0: seq<Entry<S>>, a: seq<Entry<S>>, i: nat, fix: int)
    requires Hoisting(a0, a, i) && fix == FirstWithId(a, a[i].pid) && (fix == -1 || fix <= i)
    ensures |a| == |a0| && multiset(a) == multiset(a0) && PidsDerived(a)
    ensures forall k :: 0 <= k < i ==> a[k] == a0[k]
    ensures forall k :: 0 <= k <= i ==> ParentBefore(a, k)
  {
    assert ParentBefore(a, i);
  }

  /**
   * The `sort` inside `__construct`: hoist each entry's parent in front of
   * it, then record its position in `lut`. The result is a permutation in
   * which every parent comes first, an input already in that order is left
   * as it is, and `lut` gives the last position of every id.
   */
  method Sort<S>(a0: seq<Entry<S>>) returns (a: seq<Entry<S>>, lut: map<string, int>)
    requires PidsDerived(a0)
    ensures multiset(a) == multiset(a0)
    ensures PidsDerived(a)
    ensures ParentFirst(a)
    ensures ParentFirst(a0) ==> a == a0
    ensures LastIndexTable(a, lut)
  {
    a := a0;
    lut := map[];
    var i := 0;
    while i < |a|
      invariant 0 <= i <= |a| == |a0|
      invariant multiset(a) == multiset(a0) && PidsDerived(a)
      invariant forall k :: 0 <= k < i ==> ParentBefore(a, k)
      invariant ParentFirst(a0) ==> a == a0
      invariant forall k :: 0 <= k < i ==> a[k].id in lut
      invariant forall id :: id in lut ==> 0 <= lut[id] < i && a[lut[id]].id == id
      invariant forall id, k :: id in lut && lut[id] < k < i ==> a[k].id != id
    {
      ghost var before := a;
      if ParentFirst(a0) {
        assert ParentBefore(a, i);
      }
      a := HoistParent(a, i);
      TableKept(before, a, lut, i);
      TableStep(a, lut, i);
      lut := lut[a[i].id := i];
      i := i + 1;
    }
  }

  /** The table of the first `i` positions depends on those positions only. */
  lemma TableKept<S>(a: seq<Entry<S>>, b: seq<Entry<S>>, lut: map<string, int>, i: nat)
    requires i <= |a| && i <= |b| && forall k :: 0 <= k < i ==> b[k] == a[k]
    requires forall k :: 0 <= k < i ==> a[k].id in lut
    requires forall id :: id in lut ==> 0 <= lut[id] < i && a[lut[id]].id == id
    requires forall id, k :: id in lut && lut[id] < k < i ==> a[k].id != id
    ensures forall k :: 0 <= k < i ==> b[k].id in lut
    ensures forall id :: id in lut ==> 0 <= lut[id] < i && b[lut[id]].id == id
    ensures forall id, k :: id in lut && lut[id] < k < i ==> b[k].id != id
  {
  }

  // ---------------------------------------------------------------------
  // Attaching children

  /** An entry with the children attached to it so far. */
  datatype Node<S> = Node(entry: Entry<S>, children: seq<Node<S>>)

  function AddChild<S>(n: Node<S>, c: Node<S>): Node<S> {
    Node(n.entry, n.children + [c])
  }

  function RemoveAt<T>(a: seq<T>, k: nat): (r: seq<T>)
    requires k < |a|
    ensures |r| == |a| - 1
    ensures forall j :: 0 <= j < k ==> r[j] == a[j]
    ensures forall j :: k <= j < |r| ==> r[j] == a[j + 1]
  {
    a[..k] + a[k + 1..]
  }

  /** All entries in a node, in pre-order. */
  function Members<S>(n: Node<S>): seq<Entry<S>>
    decreases n, 1
  {
    [n.entry] + MembersOf(n.children)
  }

  function MembersOf<S>(ns: seq<Node<S>>): seq<Entry<S>>
    decreases ns, 0
  {
    if |ns| == 0 then [] else Members(ns[0]) + MembersOf(ns[1..])
  }

  lemma {:induction false} MembersOfAppend<S>(a: seq<Node<S>>, b: seq<Node<S>>)
    ensures MembersOf(a + b) == MembersOf(a) + MembersOf(b)
    decreases |a|
  {
    if |a| == 0 {
      assert a + b == b;
    } else {
      assert (a + b)[1..] == a[1..] + b;
      MembersOfAppend(a[1..], b);
    }
  }

  /** The entries of a forest, split around one of its trees. */
  lemma MembersOfAt<S>(ns: seq<Node<S>>, k: nat)
    requires k < |ns|
    ensures multiset(MembersOf(ns)) ==
      multiset(MembersOf(ns[..k])) + multiset(Members(ns[k])) + multiset(MembersOf(ns[k + 1..]))
  {
    MembersOfSplit(ns, k);
    MultisetOfThree(MembersOf(ns[..k]), Members(ns[k]), MembersOf(ns[k + 1..]));
  }

  lemma MembersOfSplit<S>(ns: seq<Node<S>>, k: nat)
    requires k < |ns|
    ensures MembersOf(ns) == MembersOf(ns[..k]) + (Members(ns[k]) + MembersOf(ns[k + 1..]))
  {
    var a, c := ns[..k], ns[k + 1..];
    assert ns == a + ([ns[k]] + c);
    MembersOfAppend(a, [ns[k]] + c);
    MembersOfAppend([ns[k]], c);
    MembersOfSingle(ns[k]);
  }

  lemma MultisetOfThree<T>(x: seq<T>, y: seq<T>, z: seq<T>)
    ensures multiset(x + (y + z)) == multiset(x) + multiset(y) + multiset(z)
  {
  }

  lemma MembersOfSingle<S>(n: Node<S>)
    ensures MembersOf([n]) == Members(n)
  {
    assert [n][1..] == [];
  }

  /** Replacing one tree trades its entries for those of the new tree. */
  lemma MembersOfUpdate<S>(ns: seq<Node<S>>, k: nat, n: Node<S>)
    requires k < |ns|
    ensures multiset(MembersOf(ns[k := n])) + multiset(Members(ns[k])) ==
      multiset(MembersOf(ns)) + multiset(Members(n))
  {
    var ms := ns[k := n];
    MembersOfAt(ns, k);
    MembersOfAt(ms, k);
    assert ms[..k] == ns[..k] && ms[k + 1..] == ns[k + 1..];
  }

  /** Removing one tree removes exactly its entries. */
  lemma MembersOfRemove<S>(ns: seq<Node<S>>, k: nat)
    requires k < |ns|
    ensures multiset(MembersOf(RemoveAt(ns, k))) + multiset(Members(ns[k])) == multiset(MembersOf(ns))
  {
    MembersOfAt(ns, k);
    MembersOfAppend(ns[..k], ns[k + 1..]);
  }

  lemma MembersAddChild<S>(n: Node<S>, c: Node<S>)
    ensures multiset(Members(AddChild(n, c))) == multiset(Members(n)) + multiset(Members(c))
  {
    MembersOfAppend(n.children, [c]);
    assert [c][1..] == [];
  }

  /** Bookkeeping for a move: take one part out, add it to another, put that back. */
  lemma Exchange<T>(fq: multiset<T>, fr: multiset<T>, fns: multiset<T>, mp: multiset<T>, mi: multiset<T>, madd: multiset<T>)
    requires fq + mp == fns + madd && madd == mp + mi && fr + mi == fq
    ensures fr == fns
  {
    forall o
      ensures fr[o] == fns[o]
    {
      assert (fr + mi)[o] == fq[o];
      assert (fq + mp)[o] == (fns + madd)[o];
      assert madd[o] == mp[o] + mi[o];
    }
  }

  /** Tree `i` appended to the children of tree `p` and taken off the list, `p` found before the removal. */
  function Move<S>(ns: seq<Node<S>>, p: nat, i: nat): seq<Node<S>>
    requires p < |ns| && i < |ns|
  {
    RemoveAt(ns[p := AddChild(ns[p], ns[i])], i)
  }

  /** Moving tree `i` under tree `p` keeps every entry of the forest, once each. */
  lemma MoveKeepsMembers<S>(ns: seq<Node<S>>, p: nat, i: nat)
    requires p < |ns| && i < |ns| && p != i
    ensures multiset(MembersOf(RemoveAt(ns[p := AddChild(ns[p], ns[i])], i))) == multiset(MembersOf(ns))
  {
    var added := AddChild(ns[p], ns[i]);
    var q := ns[p := added];
    var r := RemoveAt(q, i);
    MembersOfUpdate(ns, p, added);
    MembersAddChild(ns[p], ns[i]);
    MembersOfRemove(q, i);
    assert q[i] == ns[i];
    Exchange(multiset(MembersOf(q)), multiset(MembersOf(r)), multiset(MembersOf(ns)),
      multiset(Members(ns[p])), multiset(Members(ns[i])), multiset(Members(added)));
  }

  /** No two entries share an id. */
  predicate DistinctIds<S>(s: seq<Entry<S>>) {
    forall j, k :: 0 <= j < k < |s| ==> s[j].id != s[k].id
  }

  /** Entry `b` goes under entry `k`: the first entry carrying its parent id is `k`. */
  predicate IsChildOf<S>(s: seq<Entry<S>>, b: nat, k: nat)
    requires b < |s|
  {
    s[b].pid != "root" && FirstWithId(s, s[b].pid) == k
  }

  /** Entry `j` goes under some entry. */
  predicate Attached<S>(s: seq<Entry<S>>, j: nat)
    requires j < |s|
  {
    s[j].pid != "root" && FirstWithId(s, s[j].pid) != -1
  }

  /** The finished tree of entry `k`: its children are the later entries that go under it, the last first. */
  function Full<S>(s: seq<Entry<S>>, k: nat): Node<S>
    requires k < |s|
    decreases |s| - k, 1
  {
    Node(s[k], Kids(s, k, k + 1))
  }

  /** The finished trees of the entries from `b` on that go under `k`, the last first. */
  function Kids<S>(s: seq<Entry<S>>, k: nat, b: nat): seq<Node<S>>
    requires k < |s| && k < b
    decreases |s| - b, 2
  {
    if b >= |s| then []
    else Kids(s, k, b + 1) + (if IsChildOf(s, b, k) then [Full(s, b)] else [])
  }

  /** The finished trees of the entries from `b` on that go under no entry, in order. */
  function Tops<S>(s: seq<Entry<S>>, b: nat): seq<Node<S>>
    decreases |s| - b
  {
    if b >= |s| then []
    else (if Attached(s, b) then [] else [Full(s, b)]) + Tops(s, b + 1)
  }

  /** The forest `__construct` returns for parent-first entries with distinct ids. */
  function Forest<S>(s: seq<Entry<S>>): seq<Node<S>> {
    Tops(s, 0)
  }

  /** The forest once the entries from `m` on have been handled. */
  function Stage<S>(s: seq<Entry<S>>, m: nat): (r: seq<Node<S>>)
    requires m <= |s|
  {
    seq(m, j requires 0 <= j < m => Node(s[j], Kids(s, j, m))) + Tops(s, m)
  }

  /** With distinct ids, the last position of an id is its first. */
  lemma LastIsFirst<S>(s: seq<Entry<S>>, lut: map<string, int>, id: string)
    requires DistinctIds(s) && LastIndexTable(s, lut) && id in lut
    ensures FirstWithId(s, id) == lut[id]
  {
    FirstWithIdIs(s, id, lut[id]);
  }

  lemma AbsentId<S>(s: seq<Entry<S>>, lut: map<string, int>, id: string)
    requires LastIndexTable(s, lut) && id !in lut
    ensures FirstWithId(s, id) == -1
  {
  }

  /** Handling entry `i` when it goes under entry `p`. */
  lemma StageAttach<S>(s: seq<Entry<S>>, i: nat, p: nat)
    requires i < |s| && p < i && IsChildOf(s, i, p)
    ensures RemoveAt(Stage(s, i + 1)[p := AddChild(Stage(s, i + 1)[p], Stage(s, i + 1)[i])], i) == Stage(s, i)
  {
    var cur := Stage(s, i + 1);
    var r := RemoveAt(cur[p := AddChild(cur[p], cur[i])], i);
    var st := Stage(s, i);
    assert Tops(s, i) == Tops(s, i + 1);
    assert |r| == |st|;
    forall j | 0 <= j < |r|
      ensures r[j] == st[j]
    {
      if j < i {
        assert Kids(s, j, i) == Kids(s, j, i + 1) + (if IsChildOf(s, i, j) then [Full(s, i)] else []);
      } else {
        assert r[j] == Tops(s, i + 1)[j - i];
      }
    }
  }

  /** Handling entry `i` when it goes under no entry. */
  lemma StageTop<S>(s: seq<Entry<S>>, i: nat)
    requires i < |s| && !Attached(s, i)
    ensures Stage(s, i + 1) == Stage(s, i)
  {
    var cur := Stage(s, i + 1);
    var st := Stage(s, i);
    assert Tops(s, i) == [Full(s, i)] + Tops(s, i + 1);
    assert |cur| == |st|;
    forall j | 0 <= j < |cur|
      ensures cur[j] == st[j]
    {
      if j < i {
        assert Kids(s, j, i) == Kids(s, j, i + 1);
      } else if j > i {
        assert cur[j] == Tops(s, i + 1)[j - i - 1];
      }
    }
  }

  /** What the backward pass keeps once the entries from `i` on have been handled. */
  ghost predicate Attaching<S>(s: seq<Entry<S>>, forest: seq<Node<S>>, i: nat) {
    && i <= |s| && i <= |forest|
    && (forall k :: 0 <= k < i ==> forest[k].entry == s[k])
    && multiset(MembersOf(forest)) == multiset(s)
    && (DistinctIds(s) && ParentFirst(s) ==> forest == Stage(s, i))
  }

  /**
   * The backward pass of `__construct`: from the last entry to the first,
   * an entry whose parent id is in `lut` is appended to the children of the
   * node at that position and removed from the list; an entry whose parent
   * is missing (the lookup throws and the error is swallowed) stays at the
   * top. No entry is lost or duplicated; for parent-first entries with
   * distinct ids the result is `Forest`.
   */
  method Attach<S>(s: seq<Entry<S>>, lut: map<string, int>) returns (forest: seq<Node<S>>)
    requires PidsDerived(s) && LastIndexTable(s, lut)
    ensures multiset(MembersOf(forest)) == multiset(s)
    ensures DistinctIds(s) && ParentFirst(s) ==> forest == Forest(s)
  {
    forest := seq(|s|, k requires 0 <= k < |s| => Node(s[k], []));
    AttachStart(s);
    var i: nat := |s|;
    while i > 0
      invariant Attaching(s, forest, i)
    {
      var pid := forest[i - 1].entry.pid;
      if pid != "root" && pid in lut && 0 <= lut[pid] < |forest| {
        var p := lut[pid];
        var next := Move(forest, p, i - 1);
        MoveStep(s, lut, forest, next, i, p);
        forest := next;
      } else {
        StayStep(s, lut, forest, i);
      }
      i := i - 1;
    }
    AttachDone(s, forest);
  }

  lemma AttachDone<S>(s: seq<Entry<S>>, forest: seq<Node<S>>)
    requires Attaching(s, forest, 0)
    ensures multiset(MembersOf(forest)) == multiset(s)
    ensures DistinctIds(s) && ParentFirst(s) ==> forest == Forest(s)
  {
    assert Stage(s, 0) == Forest(s);
  }

  /** The loop of `Attach` is maintained when entry `m - 1` moves under position `p`. */
  lemma MoveStep<S>(s: seq<Entry<S>>, lut: map<string, int>, forest: seq<Node<S>>, next: seq<Node<S>>, m: nat, p: nat)
    requires PidsDerived(s) && LastIndexTable(s, lut)
    requires 0 < m && Attaching(s, forest, m)
    requires s[m - 1].pid != "root" && s[m - 1].pid in lut && p == lut[s[m - 1].pid] && p < |forest|
    requires next == Move(forest, p, m - 1)
    ensures Attaching(s, next, m - 1)
  {
    var i := m - 1;
    ParentPathDiffers(s[i].id);
    MoveKeepsMembers(forest, p, i);
    if DistinctIds(s) && ParentFirst(s) {
      LastIsFirst(s, lut, s[i].pid);
      assert ParentBefore(s, i);
      StageAttach(s, i, p);
    }
  }

  /** For parent-first entries with distinct ids, the recorded position of a parent lies before its child. */
  lemma ParentSlot<S>(s: seq<Entry<S>>, lut: map<string, int>, i: nat)
    requires PidsDerived(s) && LastIndexTable(s, lut) && DistinctIds(s) && ParentFirst(s)
    requires i < |s| && s[i].pid != "root" && s[i].pid in lut
    ensures lut[s[i].pid] < i
  {
    ParentPathDiffers(s[i].id);
    LastIsFirst(s, lut, s[i].pid);
    assert ParentBefore(s, i);
  }

  /** The loop of `Attach` is maintained when entry `m - 1` stays at the top. */
  lemma StayStep<S>(s: seq<Entry<S>>, lut: map<string, int>, forest: seq<Node<S>>, m: nat)
    requires PidsDerived(s) && LastIndexTable(s, lut)
    requires 0 < m && Attaching(s, forest, m)
    requires !(s[m - 1].pid != "root" && s[m - 1].pid in lut && 0 <= lut[s[m - 1].pid] < |forest|)
    ensures Attaching(s, forest, m - 1)
  {
    var i := m - 1;
    if DistinctIds(s) && ParentFirst(s) {
      var pid := s[i].pid;
      if pid != "root" && pid !in lut {
        AbsentId(s, lut, pid);
      }
      if pid != "root" && pid in lut {
        ParentSlot(s, lut, i);
      }
      StageTop(s, i);
    }
  }

  lemma AttachStart<S>(s: seq<Entry<S>>)
    ensures Attaching(s, seq(|s|, k requires 0 <= k < |s| => Node(s[k], [])), |s|)
  {
    InitialMembers(s);
    var init := seq(|s|, k requires 0 <= k < |s| => Node(s[k], []));
    var st := Stage(s, |s|);
    forall j | 0 <= j < |s|
      ensures st[j] == init[j]
    {
      assert Kids(s, j, |s|) == [];
    }
  }

  lemma InitialMembers<S>(s: seq<Entry<S>>)
    ensures MembersOf(seq(|s|, k requires 0 <= k < |s| => Node(s[k], []))) == s
  {
    if |s| > 0 {
      var ns := seq(|s|, k requires 0 <= k < |s| => Node(s[k], []));
      assert ns[1..] == seq(|s| - 1, k requires 0 <= k < |s| - 1 => Node(s[1..][k], []));
      InitialMembers(s[1..]);
      assert MembersOf(ns[0].children) == [];
    }
  }

  // ---------------------------------------------------------------------
  // What the forest looks like

  /** Every child sits under a node whose id is the child's parent id, all the way down. */
  ghost predicate Parented<S>(n: Node<S>) {
    forall c :: c in n.children ==> c.entry.pid == n.entry.id && Parented(c)
  }

  lemma {:induction false} FullParented<S>(s: seq<Entry<S>>, k: nat)
    requires k < |s|
    ensures Parented(Full(s, k))
    decreases |s| - k, 1
  {
    KidsParented(s, k, k + 1);
  }

  lemma {:induction false} KidsParented<S>(s: seq<Entry<S>>, k: nat, b: nat)
    requires k < |s| && k < b
    ensures forall c :: c in Kids(s, k, b) ==> c.entry.pid == s[k].id && Parented(c)
    decreases |s| - b, 2
  {
    if b < |s| {
      KidsParented(s, k, b + 1);
      if IsChildOf(s, b, k) {
        FullParented(s, b);
      }
    }
  }

  /** Only entries whose parent id is "root" or missing from the list stay at the top. */
  lemma {:induction false} TopsShape<S>(s: seq<Entry<S>>, b: nat)
    ensures forall n :: n in Tops(s, b) ==>
      Parented(n) && (n.entry.pid == "root" || forall j :: 0 <= j < |s| ==> s[j].id != n.entry.pid)
    decreases |s| - b
  {
    if b < |s| {
      TopsShape(s, b + 1);
      if !Attached(s, b) {
        FullParented(s, b);
      }
    }
  }

  /**
   * The forest of parent-first entries: every tree is well parented, and a
   * tree is at the top exactly because its parent id is "root" or names no
   * entry of the list.
   */
  lemma ForestShape<S>(s: seq<Entry<S>>)
    ensures forall n :: n in Forest(s) ==>
      Parented(n) && (n.entry.pid == "root" || forall j :: 0 <= j < |s| ==> s[j].id != n.entry.pid)
  {
    TopsShape(s, 0);
  }

  /** Siblings come out last first: two children of "a", listed x then y, end up as [y, x]. */
  lemma SiblingsReversed()
    ensures var a, x, y := Entry("a", 1, "a", "root"), Entry("x", 2, "a > x", "a"), Entry("y", 3, "a > y", "a");
      Forest([a, x, y]) == [Node(a, [Node(y, []), Node(x, [])])]
  {
    var a, x, y := Entry("a", 1, "a", "root"), Entry("x", 2, "a > x", "a"), Entry("y", 3, "a > y", "a");
    var s := [a, x, y];
    assert FirstWithId(s[2..], "a") == -1;
    assert FirstWithId(s[1..], "a") == -1;
    assert FirstWithId(s, "a") == 0;
    assert IsChildOf(s, 1, 0) && IsChildOf(s, 2, 0) && !IsChildOf(s, 2, 1);
    assert Kids(s, 2, 3) == [] && Kids(s, 1, 3) == [];
    assert Kids(s, 1, 2) == [];
    assert Full(s, 1) == Node(x, []) && Full(s, 2) == Node(y, []);
    assert Kids(s, 0, 2) == [Node(y, [])];
    assert Kids(s, 0, 1) == [Node(y, []), Node(x, [])];
    assert Attached(s, 1) && Attached(s, 2) && !Attached(s, 0);
    assert Tops(s, 3) == [];
    assert Tops(s, 2) == [];
    assert Tops(s, 1) == [];
    assert Full(s, 0) == Node(a, Kids(s, 0, 1));
  }

  // ---------------------------------------------------------------------
  // Entries listed in pre-order

  /** Every tree of `ns` has parent id `p`, and below it every child's parent id is its parent's id. */
  predicate Under<S>(ns: seq<Node<S>>, p: string)
    decreases ns
  {
    forall k :: 0 <= k < |ns| ==> ns[k].entry.pid == p && Under(ns[k].children, ns[k].entry.id)
  }

  /** A tree with every list of children reversed, all the way down. */
  function Reversed<S>(n: Node<S>): Node<S>
    decreases n, 1
  {
    Node(n.entry, ReversedAll(n.children))
  }

  /** The trees of `ns` last first, each reversed. */
  function ReversedAll<S>(ns: seq<Node<S>>): seq<Node<S>>
    decreases ns, 0
  {
    if |ns| == 0 then [] else ReversedAll(ns[1..]) + [Reversed(ns[0])]
  }

  /** The trees of `ns` in order, each reversed. */
  function ReversedEach<S>(ns: seq<Node<S>>): seq<Node<S>> {
    if |ns| == 0 then [] else [Reversed(ns[0])] + ReversedEach(ns[1..])
  }

  predicate NoRootId<S>(s: seq<Entry<S>>) {
    forall j :: 0 <= j < |s| ==> s[j].id != "root"
  }

  /** `xs` sits in `s` from position `b` on. */
  ghost predicate At<S>(s: seq<Entry<S>>, b: nat, xs: seq<Entry<S>>) {
    b + |xs| <= |s| && s[b..b + |xs|] == xs
  }

  lemma AtAppend<S>(s: seq<Entry<S>>, b: nat, xs: seq<Entry<S>>, ys: seq<Entry<S>>)
    requires At(s, b, xs + ys)
    ensures At(s, b, xs) && At(s, b + |xs|, ys)
  {
    assert s[b..b + |xs|] == s[b..b + |xs + ys|][..|xs|];
    assert s[b + |xs|..b + |xs + ys|] == s[b..b + |xs + ys|][|xs|..];
  }

  /** No entry after position `e` names an entry of positions `b..e` as its parent. */
  predicate Closed<S>(s: seq<Entry<S>>, b: nat, e: nat) {
    forall j, i :: e <= j < |s| && b <= i < e ==> s[j].pid != s[i].id
  }

  /** The trees `Kids(s, k, b)` collects from positions `b..e`, the last first. */
  function KidsIn<S>(s: seq<Entry<S>>, k: nat, b: nat, e: nat): seq<Node<S>>
    requires k < b <= e <= |s|
    decreases e - b
  {
    if b == e then [] else KidsIn(s, k, b + 1, e) + (if IsChildOf(s, b, k) then [Full(s, b)] else [])
  }

  lemma {:induction false} KidsAll<S>(s: seq<Entry<S>>, k: nat, b: nat)
    requires k < b <= |s|
    ensures Kids(s, k, b) == KidsIn(s, k, b, |s|)
    decreases |s| - b
  {
    if b < |s| {
      KidsAll(s, k, b + 1);
    }
  }

  lemma {:induction false} KidsInSplit<S>(s: seq<Entry<S>>, k: nat, b: nat, m: nat, e: nat)
    requires k < b <= m <= e <= |s|
    ensures KidsIn(s, k, b, e) == KidsIn(s, k, m, e) + KidsIn(s, k, b, m)
    decreases m - b
  {
    if b < m {
      KidsInSplit(s, k, b + 1, m, e);
    }
  }

  lemma {:induction false} KidsInNone<S>(s: seq<Entry<S>>, k: nat, b: nat, e: nat)
    requires k < b <= e <= |s|
    requires forall j :: b <= j < e ==> s[j].pid != s[k].id
    ensures KidsIn(s, k, b, e) == []
    decreases e - b
  {
    if b < e {
      KidsInNone(s, k, b + 1, e);
    }
  }

  /** The trees `Tops(s, b)` collects from positions `b..e`, in order. */
  function TopsIn<S>(s: seq<Entry<S>>, b: nat, e: nat): seq<Node<S>>
    requires b <= e <= |s|
    decreases e - b
  {
    if b == e then [] else (if Attached(s, b) then [] else [Full(s, b)]) + TopsIn(s, b + 1, e)
  }

  lemma {:induction false} TopsAll<S>(s: seq<Entry<S>>, b: nat)
    requires b <= |s|
    ensures Tops(s, b) == TopsIn(s, b, |s|)
    decreases |s| - b
  {
    if b < |s| {
      TopsAll(s, b + 1);
    }
  }

  lemma {:induction false} TopsInSplit<S>(s: seq<Entry<S>>, b: nat, m: nat, e: nat)
    requires b <= m <= e <= |s|
    ensures TopsIn(s, b, e) == TopsIn(s, b, m) + TopsIn(s, m, e)
    decreases m - b
  {
    if b < m {
      TopsInSplit(s, b + 1, m, e);
    }
  }

  lemma {:induction false} TopsInNone<S>(s: seq<Entry<S>>, b: nat, e: nat)
    requires b <= e <= |s|
    requires forall j :: b <= j < e ==> Attached(s, j)
    ensures TopsIn(s, b, e) == []
    decreases e - b
  {
    if b < e {
      assert Attached(s, b);
      TopsInNone(s, b + 1, e);
    }
  }

  /** With distinct ids, an entry goes under the entry whose id is its parent id. */
  lemma ChildOfIds<S>(s: seq<Entry<S>>, j: nat, k: nat)
    requires DistinctIds(s) && j < |s| && k < |s|
    requires s[j].pid == s[k].id && s[j].pid != "root"
    ensures IsChildOf(s, j, k)
  {
    FirstWithIdIs(s, s[k].id, k);
  }

  /** In pre-order, every entry below the top of its tree has its parent's entry before it. */
  lemma {:induction false} ParentsBefore<S>(s: seq<Entry<S>>, ns: seq<Node<S>>, b: nat, p: string)
    requires At(s, b, MembersOf(ns)) && Under(ns, p)
    ensures forall j :: b <= j < b + |MembersOf(ns)| ==>
      s[j].pid == p || exists i :: b <= i < j && s[i].id == s[j].pid
    decreases ns
  {
    if |ns| > 0 {
      var n := ns[0];
      var m := |Members(n)|;
      AtAppend(s, b, Members(n), MembersOf(ns[1..]));
      AtAppend(s, b, [n.entry], MembersOf(n.children));
      assert s[b] == n.entry;
      assert Under(ns[1..], p) by {
        forall k | 0 <= k < |ns| - 1
          ensures ns[1..][k] == ns[k + 1]
        {
        }
      }
      ParentsBefore(s, n.children, b + 1, n.entry.id);
      ParentsBefore(s, ns[1..], b + m, p);
      forall j | b <= j < b + |MembersOf(ns)|
        ensures s[j].pid == p || exists i :: b <= i < j && s[i].id == s[j].pid
      {
        if b < j < b + m && s[j].pid == n.entry.id {
          assert s[b].id == s[j].pid;
        }
      }
    }
  }

  /** With distinct ids, no entry of a pre-order stretch names an entry outside it as parent, other than `p`. */
  lemma PidsStayInside<S>(s: seq<Entry<S>>, ns: seq<Node<S>>, b: nat, p: string)
    requires At(s, b, MembersOf(ns)) && Under(ns, p) && DistinctIds(s)
    ensures var e := b + |MembersOf(ns)|;
      forall j, i :: b <= j < e && 0 <= i < |s| && (i < b || e <= i) && s[i].id != p ==> s[j].pid != s[i].id
  {
    ParentsBefore(s, ns, b, p);
  }

  /** Under a tree's own parent id, the tail of a forest keeps the property. */
  lemma UnderTail<S>(ns: seq<Node<S>>, p: string)
    requires |ns| > 0 && Under(ns, p)
    ensures Under(ns[1..], p) && ns[0].entry.pid == p && Under(ns[0].children, ns[0].entry.id)
  {
    forall k | 0 <= k < |ns| - 1
      ensures ns[1..][k] == ns[k + 1]
    {
    }
  }

  /** The forest `ns` is listed in pre-order in `s` from `b`, its tops under `p`, and nothing after it goes under it. */
  ghost predicate Laid<S>(s: seq<Entry<S>>, ns: seq<Node<S>>, b: nat, p: string) {
    && At(s, b, MembersOf(ns)) && Under(ns, p)
    && DistinctIds(s) && NoRootId(s) && Closed(s, b, b + |MembersOf(ns)|)
  }

  /** The same for a single tree at position `q`. */
  ghost predicate LaidNode<S>(s: seq<Entry<S>>, n: Node<S>, q: nat) {
    && At(s, q, Members(n)) && Under(n.children, n.entry.id)
    && DistinctIds(s) && NoRootId(s) && Closed(s, q, q + |Members(n)|)
  }

  /** A laid forest splits into its first tree and the rest, when no id of the first tree is `p`. */
  lemma LaidSplit<S>(s: seq<Entry<S>>, ns: seq<Node<S>>, b: nat, p: string)
    requires |ns| > 0 && Laid(s, ns, b, p)
    requires forall i :: b <= i < b + |Members(ns[0])| ==> s[i].id != p
    ensures |MembersOf(ns)| == |Members(ns[0])| + |MembersOf(ns[1..])|
    ensures Laid(s, ns[1..], b + |Members(ns[0])|, p)
    ensures LaidNode(s, ns[0], b) && ns[0].entry.pid == p
  {
    LaidTail(s, ns, b, p);
    LaidHead(s, ns, b, p);
  }

  /** The rest of a laid forest is laid right after its first tree. */
  lemma LaidTail<S>(s: seq<Entry<S>>, ns: seq<Node<S>>, b: nat, p: string)
    requires |ns| > 0 && Laid(s, ns, b, p)
    ensures |MembersOf(ns)| == |Members(ns[0])| + |MembersOf(ns[1..])|
    ensures Laid(s, ns[1..], b + |Members(ns[0])|, p)
  {
    assert MembersOf(ns) == Members(ns[0]) + MembersOf(ns[1..]);
    UnderTail(ns, p);
    AtAppend(s, b, Members(ns[0]), MembersOf(ns[1..]));
    ClosedShrinks(s, b, b + |Members(ns[0])|, b + |MembersOf(ns)|);
  }

  /** The first tree of a laid forest is laid where the forest starts, when no id in it is `p`. */
  lemma LaidHead<S>(s: seq<Entry<S>>, ns: seq<Node<S>>, b: nat, p: string)
    requires |ns| > 0 && Laid(s, ns, b, p)
    requires forall i :: b <= i < b + |Members(ns[0])| ==> s[i].id != p
    ensures LaidNode(s, ns[0], b) && ns[0].entry.pid == p
  {
    var m, e := |Members(ns[0])|, b + |MembersOf(ns)|;
    assert MembersOf(ns) == Members(ns[0]) + MembersOf(ns[1..]);
    UnderTail(ns, p);
    AtAppend(s, b, Members(ns[0]), MembersOf(ns[1..]));
    PidsStayInside(s, ns[1..], b + m, p);
    ClosedPrefix(s, b, b + m, e, p);
  }

  /** A stretch `b..e` closed as a whole has its prefix `b..c` closed too, when nothing in `c..e` points into the prefix. */
  lemma ClosedPrefix<S>(s: seq<Entry<S>>, b: nat, c: nat, e: nat, p: string)
    requires b <= c <= e <= |s| && Closed(s, b, e)
    requires forall i :: b <= i < c ==> s[i].id != p
    requires forall j, i :: c <= j < e && 0 <= i < |s| && (i < c || e <= i) && s[i].id != p ==> s[j].pid != s[i].id
    ensures Closed(s, b, c)
  {
  }

  /** The children of a laid tree are laid right after it, under its id. */
  lemma LaidChildren<S>(s: seq<Entry<S>>, n: Node<S>, q: nat)
    requires LaidNode(s, n, q)
    ensures q + |Members(n)| <= |s| && s[q] == n.entry
    ensures Laid(s, n.children, q + 1, s[q].id)
    ensures Closed(s, q, q + |Members(n)|)
  {
    assert Members(n) == [n.entry] + MembersOf(n.children);
    AtAppend(s, q, [n.entry], MembersOf(n.children));
    assert s[q] == n.entry by {
      assert s[q..q + 1] == [n.entry];
    }
    ClosedShrinks(s, q, q + 1, q + |Members(n)|);
  }

  /** Closing a stretch closes every tail of it. */
  lemma ClosedShrinks<S>(s: seq<Entry<S>>, b: nat, c: nat, e: nat)
    requires b <= c && Closed(s, b, e)
    ensures Closed(s, c, e)
  {
  }

  /** Ids after position `k` differ from the id at `k`. */
  lemma OthersDiffer<S>(s: seq<Entry<S>>, k: nat, b: nat, e: nat)
    requires DistinctIds(s) && k < b <= e <= |s|
    ensures forall i :: b <= i < e ==> s[i].id != s[k].id
  {
  }

  /** A laid tree at position `q` comes back from `Full` with its children reversed. */
  lemma {:induction false} NodeFull<S>(s: seq<Entry<S>>, n: Node<S>, q: nat)
    requires LaidNode(s, n, q)
    ensures Full(s, q) == Reversed(n)
    decreases n, 1
  {
    LaidChildren(s, n, q);
    TreeKids(s, q, q + |Members(n)|);
    ChildKids(s, n.children, q, q + 1);
  }

  /** When nothing after position `e` goes under entry `q`, its children all come from `q + 1..e`. */
  lemma TreeKids<S>(s: seq<Entry<S>>, q: nat, e: nat)
    requires q < e <= |s| && Closed(s, q, e)
    ensures Kids(s, q, q + 1) == KidsIn(s, q, q + 1, e)
  {
    KidsAll(s, q, q + 1);
    KidsInSplit(s, q, q + 1, e, |s|);
    KidsInNone(s, q, e, |s|);
  }

  /** The children of entry `k`, laid from `b`, come back last first. */
  lemma {:induction false} ChildKids<S>(s: seq<Entry<S>>, ns: seq<Node<S>>, k: nat, b: nat)
    requires k < b <= |s| && Laid(s, ns, b, s[k].id)
    ensures b + |MembersOf(ns)| <= |s|
    ensures KidsIn(s, k, b, b + |MembersOf(ns)|) == ReversedAll(ns)
    decreases ns, 1
  {
    if |ns| > 0 {
      ChildKidsRest(s, ns, k, b);
      ChildKidsFirst(s, ns, k, b);
      KidsSteps(s, ns, k, b, |Members(ns[0])|, b + |MembersOf(ns)|);
    } else {
      assert MembersOf(ns) == [];
    }
  }

  /** The children of `k` laid after the first tree come back last first. */
  lemma {:induction false} ChildKidsRest<S>(s: seq<Entry<S>>, ns: seq<Node<S>>, k: nat, b: nat)
    requires |ns| > 0 && k < b <= |s| && Laid(s, ns, b, s[k].id)
    ensures var m, e := |Members(ns[0])|, b + |MembersOf(ns)|;
      b + m <= e <= |s| && KidsIn(s, k, b + m, e) == ReversedAll(ns[1..])
    decreases ns, 0
  {
    ChildSplit(s, ns, k, b);
    ChildKids(s, ns[1..], k, b + |Members(ns[0])|);
  }

  /** A forest laid under entry `k` splits into its first tree and the rest, both laid under `k`. */
  lemma ChildSplit<S>(s: seq<Entry<S>>, ns: seq<Node<S>>, k: nat, b: nat)
    requires |ns| > 0 && k < b <= |s| && Laid(s, ns, b, s[k].id)
    ensures |MembersOf(ns)| == |Members(ns[0])| + |MembersOf(ns[1..])|
    ensures Laid(s, ns[1..], b + |Members(ns[0])|, s[k].id)
    ensures LaidNode(s, ns[0], b) && ns[0].entry.pid == s[k].id
  {
    OthersDiffer(s, k, b, b + |MembersOf(ns)|);
    LaidSplit(s, ns, b, s[k].id);
  }

  /** The first child of `k` laid at `b` comes back alone from its own stretch. */
  lemma {:induction false} ChildKidsFirst<S>(s: seq<Entry<S>>, ns: seq<Node<S>>, k: nat, b: nat)
    requires |ns| > 0 && k < b <= |s| && Laid(s, ns, b, s[k].id)
    ensures b + |Members(ns[0])| <= |s|
    ensures KidsIn(s, k, b, b + |Members(ns[0])|) == [Reversed(ns[0])]
    decreases ns, 0
  {
    ChildSplit(s, ns, k, b);
    ChildFirst(s, ns[0], k, b);
  }

  /** The children of `k` in a stretch are those of its first tree's stretch after those of the rest. */
  lemma KidsSteps<S>(s: seq<Entry<S>>, ns: seq<Node<S>>, k: nat, b: nat, m: nat, e: nat)
    requires |ns| > 0 && k < b <= b + m <= e <= |s|
    requires KidsIn(s, k, b + m, e) == ReversedAll(ns[1..])
    requires KidsIn(s, k, b, b + m) == [Reversed(ns[0])]
    ensures KidsIn(s, k, b, e) == ReversedAll(ns)
  {
    KidsInSplit(s, k, b, b + m, e);
  }

  /** One child of entry `k`, laid at `b`, comes back as its reversed tree. */
  lemma {:induction false} ChildFirst<S>(s: seq<Entry<S>>, n: Node<S>, k: nat, b: nat)
    requires k < b && LaidNode(s, n, b) && n.entry.pid == s[k].id
    ensures b + |Members(n)| <= |s|
    ensures KidsIn(s, k, b, b + |Members(n)|) == [Reversed(n)]
    decreases n, 2
  {
    ChildAlone(s, n, k, b);
    NodeFull(s, n, b);
  }

  /** A child of entry `k` laid at `b` goes under `k`, and nothing below it does. */
  lemma ChildAlone<S>(s: seq<Entry<S>>, n: Node<S>, k: nat, b: nat)
    requires k < b && LaidNode(s, n, b) && n.entry.pid == s[k].id
    ensures b + |Members(n)| <= |s| && IsChildOf(s, b, k)
    ensures KidsIn(s, k, b + 1, b + |Members(n)|) == []
  {
    LaidChildren(s, n, b);
    ChildOfIds(s, b, k);
    NothingBelow(s, n.children, k, b + 1, n.entry.id);
  }

  /** No entry of a pre-order stretch under `p` goes under an earlier entry `k` whose id is not `p`. */
  lemma NothingBelow<S>(s: seq<Entry<S>>, ns: seq<Node<S>>, k: nat, b: nat, p: string)
    requires At(s, b, MembersOf(ns)) && Under(ns, p) && DistinctIds(s)
    requires k < b && s[k].id != p
    ensures b + |MembersOf(ns)| <= |s|
    ensures KidsIn(s, k, b, b + |MembersOf(ns)|) == []
  {
    PidsStayInside(s, ns, b, p);
    KidsInNone(s, k, b, b + |MembersOf(ns)|);
  }

  /** The trees of a laid forest whose tops have parent id "root" come back in order. */
  lemma {:induction false} TopsForest<S>(s: seq<Entry<S>>, ns: seq<Node<S>>, b: nat)
    requires Laid(s, ns, b, "root")
    ensures b + |MembersOf(ns)| <= |s|
    ensures TopsIn(s, b, b + |MembersOf(ns)|) == ReversedEach(ns)
    decreases ns, 1
  {
    if |ns| > 0 {
      TopsRest(s, ns, b);
      TopsFirst(s, ns, b);
      TopsSteps(s, ns, b, |Members(ns[0])|, b + |MembersOf(ns)|);
    } else {
      assert MembersOf(ns) == [];
    }
  }

  /** The top trees laid after the first come back in order. */
  lemma {:induction false} TopsRest<S>(s: seq<Entry<S>>, ns: seq<Node<S>>, b: nat)
    requires |ns| > 0 && Laid(s, ns, b, "root")
    ensures var m, e := |Members(ns[0])|, b + |MembersOf(ns)|;
      b + m <= e <= |s| && TopsIn(s, b + m, e) == ReversedEach(ns[1..])
    decreases ns, 0
  {
    NoRootInside(s, b, b + |Members(ns[0])|);
    LaidSplit(s, ns, b, "root");
    TopsForest(s, ns[1..], b + |Members(ns[0])|);
  }

  /** The first top tree, laid at `b`, comes back alone from its own stretch. */
  lemma TopsFirst<S>(s: seq<Entry<S>>, ns: seq<Node<S>>, b: nat)
    requires |ns| > 0 && Laid(s, ns, b, "root")
    ensures b + |Members(ns[0])| <= |s|
    ensures TopsIn(s, b, b + |Members(ns[0])|) == [Reversed(ns[0])]
  {
    NoRootInside(s, b, b + |Members(ns[0])|);
    LaidSplit(s, ns, b, "root");
    TopFirst(s, ns[0], b);
  }

  /** No id in a stretch is "root". */
  lemma NoRootInside<S>(s: seq<Entry<S>>, b: nat, e: nat)
    requires NoRootId(s)
    ensures forall i :: b <= i < e && i < |s| ==> s[i].id != "root"
  {
  }

  /** The tops of a stretch are those of its first tree's stretch, then those of the rest. */
  lemma TopsSteps<S>(s: seq<Entry<S>>, ns: seq<Node<S>>, b: nat, m: nat, e: nat)
    requires |ns| > 0 && b <= b + m <= e <= |s|
    requires TopsIn(s, b + m, e) == ReversedEach(ns[1..])
    requires TopsIn(s, b, b + m) == [Reversed(ns[0])]
    ensures TopsIn(s, b, e) == ReversedEach(ns)
  {
    TopsInSplit(s, b, b + m, e);
  }

  /** A laid tree with parent id "root" at `b` stays at the top as its reversed tree. */
  lemma TopFirst<S>(s: seq<Entry<S>>, n: Node<S>, b: nat)
    requires LaidNode(s, n, b) && n.entry.pid == "root"
    ensures b + |Members(n)| <= |s|
    ensures TopsIn(s, b, b + |Members(n)|) == [Reversed(n)]
  {
    LaidChildren(s, n, b);
    InnerAttached(s, n, b);
    TopsInNone(s, b + 1, b + |Members(n)|);
    NodeFull(s, n, b);
  }

  /** Every entry below the top of a tree in pre-order goes under some entry. */
  lemma InnerAttached<S>(s: seq<Entry<S>>, n: Node<S>, b: nat)
    requires At(s, b, Members(n)) && Under(n.children, n.entry.id) && NoRootId(s)
    ensures forall j :: b + 1 <= j < b + |Members(n)| ==> Attached(s, j)
  {
    AtAppend(s, b, [n.entry], MembersOf(n.children));
    assert s[b] == n.entry;
    ParentsBefore(s, n.children, b + 1, n.entry.id);
  }

  /**
   * A forest listed in pre-order, with "root" as the parent id of its tops,
   * each child's parent id its parent's id, and distinct ids other than
   * "root", is parent-first, and `__construct` rebuilds it with every list of
   * children reversed.
   */
  lemma PreOrderForest<S>(ns: seq<Node<S>>)
    requires Under(ns, "root") && DistinctIds(MembersOf(ns)) && NoRootId(MembersOf(ns))
    ensures ParentFirst(MembersOf(ns))
    ensures Forest(MembersOf(ns)) == ReversedEach(ns)
  {
    var s := MembersOf(ns);
    assert s[0..|s|] == s;
    TopsAll(s, 0);
    TopsForest(s, ns, 0);
    ParentsBefore(s, ns, 0, "root");
    forall j | 0 <= j < |s|
      ensures ParentBefore(s, j)
    {
      if s[j].pid != "root" {
        var i :| 0 <= i < j && s[i].id == s[j].pid;
      }
    }
  }

  // ---------------------------------------------------------------------
  // The result without ids

  /** A node of the returned tree: `{name, size, children}`; a node without children has no `children` key. */
  datatype Tree<S> = Tree(name: string, size: S, children: seq<Tree<S>>)

  /** The `JSON.stringify` replacer that drops `id` and `pid`. */
  function Strip<S>(n: Node<S>): Tree<S>
    decreases n, 1
  {
    Tree(n.entry.name, n.entry.size, StripAll(n.children))
  }

  function StripAll<S>(ns: seq<Node<S>>): (r: seq<Tree<S>>)
    ensures |r| == |ns|
    decreases ns, 0
  {
    if |ns| == 0 then [] else [Strip(ns[0])] + StripAll(ns[1..])
  }

  /** What a reader of the tree sees of an entry. */
  function Label<S>(e: Entry<S>): (string, S) {
    (e.name, e.size)
  }

  function Labels<S>(es: seq<Entry<S>>): (r: seq<(string, S)>)
    ensures |r| == |es| && forall k :: 0 <= k < |es| ==> r[k] == Label(es[k])
  {
    seq(|es|, k requires 0 <= k < |es| => Label(es[k]))
  }

  /** The (name, size) pairs of a tree, in pre-order. */
  function TreeLabels<S>(t: Tree<S>): seq<(string, S)>
    decreases t, 1
  {
    [(t.name, t.size)] + TreeLabelsOf(t.children)
  }

  function TreeLabelsOf<S>(ts: seq<Tree<S>>): seq<(string, S)>
    decreases ts, 0
  {
    if |ts| == 0 then [] else TreeLabels(ts[0]) + TreeLabelsOf(ts[1..])
  }

  /** The (name, size) pairs a list of tuples should come back as. */
  function RecordLabels<S>(list: seq<Record<S>>): (r: seq<(string, S)>)
    ensures |r| == |list| && forall k :: 0 <= k < |list| ==> r[k] == (DisplayName(list[k].name), list[k].size)
  {
    seq(|list|, k requires 0 <= k < |list| => (DisplayName(list[k].name), list[k].size))
  }

  lemma LabelsAppend<S>(a: seq<Entry<S>>, b: seq<Entry<S>>)
    ensures Labels(a + b) == Labels(a) + Labels(b)
  {
  }

  /** Dropping ids keeps every entry's name and size, in the same order. */
  lemma {:induction false} StripLabels<S>(ns: seq<Node<S>>)
    ensures TreeLabelsOf(StripAll(ns)) == Labels(MembersOf(ns))
    decreases ns
  {
    if |ns| > 0 {
      var n := ns[0];
      StripLabels(n.children);
      StripLabels(ns[1..]);
      LabelsAppend([n.entry], MembersOf(n.children));
      LabelsAppend(Members(n), MembersOf(ns[1..]));
      assert StripAll(ns)[1..] == StripAll(ns[1..]);
    }
  }

  lemma Cancel<T>(tail: multiset<T>, l: multiset<T>, x: multiset<T>, r: multiset<T>)
    requires x + tail == l + x + r
    ensures tail == l + r
  {
    forall o
      ensures tail[o] == (l + r)[o]
    {
      assert (x + tail)[o] == (l + x + r)[o];
    }
  }

  /** `f` applied to every element of `a`. */
  function Mapped<T, U>(f: T -> U, a: seq<T>): (r: seq<U>)
    ensures |r| == |a| && forall k :: 0 <= k < |a| ==> r[k] == f(a[k])
  {
    seq(|a|, k requires 0 <= k < |a| => f(a[k]))
  }

  lemma MappedAppend<T, U>(f: T -> U, a: seq<T>, b: seq<T>)
    ensures Mapped(f, a + b) == Mapped(f, a) + Mapped(f, b)
  {
  }

  /** Mapping a permutation gives a permutation. */
  lemma {:induction false} MappedPermutation<T, U>(f: T -> U, a: seq<T>, b: seq<T>)
    requires multiset(a) == multiset(b)
    ensures multiset(Mapped(f, a)) == multiset(Mapped(f, b))
    decreases |a|
  {
    if |a| > 0 {
      var x := a[0];
      assert x in multiset(b);
      var k :| 0 <= k < |b| && b[k] == x;
      var rest := b[..k] + b[k + 1..];
      assert b == b[..k] + [x] + b[k + 1..];
      assert a == [x] + a[1..];
      var l, r := b[..k], b[k + 1..];
      assert multiset(a) == multiset([x]) + multiset(a[1..]);
      assert multiset(b) == multiset(l) + multiset([x]) + multiset(r);
      assert multiset(rest) == multiset(l) + multiset(r);
      Cancel(multiset(a[1..]), multiset(l), multiset([x]), multiset(r));
      MappedPermutation(f, a[1..], rest);
      MappedAppend(f, [x], a[1..]);
      MappedAppend(f, b[..k] + [x], b[k + 1..]);
      MappedAppend(f, b[..k], [x]);
      MappedAppend(f, b[..k], b[k + 1..]);
    }
  }

  /** Relabelling a permutation gives a permutation. */
  lemma LabelsPermutation<S>(a: seq<Entry<S>>, b: seq<Entry<S>>)
    requires multiset(a) == multiset(b)
    ensures multiset(Labels(a)) == multiset(Labels(b))
  {
    MappedPermutation(Label, a, b);
    assert Labels(a) == Mapped(Label, a);
    assert Labels(b) == Mapped(Label, b);
  }

  /** In a sequence without repeats every value occurs at most once. */
  lemma {:induction false} NoRepeatsCount<T>(s: seq<T>)
    requires forall j, k :: 0 <= j < k < |s| ==> s[j] != s[k]
    ensures forall x :: multiset(s)[x] <= 1
    decreases |s|
  {
    if |s| > 0 {
      NoRepeatsCount(s[1..]);
      assert s == [s[0]] + s[1..];
      assert s[0] !in s[1..];
    }
  }

  /** The value at `j` occurs once for itself and once more if it sits at `k` too. */
  lemma CountTwo<T>(s: seq<T>, j: nat, k: nat)
    requires j < k < |s|
    ensures multiset(s)[s[j]] >= 1 + (if s[k] == s[j] then 1 else 0)
  {
    assert s == s[..k] + [s[k]] + s[k + 1..];
    assert s[j] in s[..k];
  }

  /** The id of an entry. */
  function IdOf<S>(e: Entry<S>): string {
    e.id
  }

  /** Distinct ids survive any reordering of the entries. */
  lemma DistinctPermutation<S>(a: seq<Entry<S>>, b: seq<Entry<S>>)
    requires multiset(a) == multiset(b) && DistinctIds(a)
    ensures DistinctIds(b)
  {
    var ia, ib := Mapped(IdOf, a), Mapped(IdOf, b);
    NoRepeatsCount(ia);
    MappedPermutation(IdOf, a, b);
    forall j, k | 0 <= j < k < |b|
      ensures b[j].id != b[k].id
    {
      CountTwo(ib, j, k);
    }
  }

  /**
   * `__reassembleTree`: decompose every tuple, sort parents first, attach
   * children, drop ids. Every tuple comes back exactly once as a (display
   * name, size) pair somewhere in the result; when the decomposed tuples
   * are already parent-first with distinct names, as the flattener emits
   * them, the result is the stripped `Forest`.
   */
  method ReassembleTree<S>(list: seq<Record<S>>) returns (trees: seq<Tree<S>>)
    ensures multiset(TreeLabelsOf(trees)) == multiset(RecordLabels(list))
    ensures DistinctIds(DecomposeAll(list)) && ParentFirst(DecomposeAll(list)) ==>
      trees == StripAll(Forest(DecomposeAll(list)))
    ensures DistinctIds(DecomposeAll(list)) ==> exists s ::
      multiset(s) == multiset(DecomposeAll(list)) && ParentFirst(s) && trees == StripAll(Forest(s))
  {
    var entries := DecomposeAll(list);
    var sorted, lut := Sort(entries);
    var forest := Attach(sorted, lut);
    trees := StripAll(forest);
    StripLabels(forest);
    LabelsPermutation(MembersOf(forest), entries);
    if DistinctIds(entries) {
      DistinctPermutation(entries, sorted);
      assert multiset(sorted) == multiset(entries) && ParentFirst(sorted) && trees == StripAll(Forest(sorted));
    }
  }
}
