/**
 * What the flattener produces for the documents the scraper feeds it. An
 * XML `synset` element becomes an object whose attributes are string fields
 * and whose child elements form the array `synset`; the whole tree is one such
 * object without attributes. For such a document the flat list is the
 * elements in document order, each labelled by the `words` of its ancestors
 * and itself joined with " > ", and sized by its own `num_finalgood`.
 */
module FlattenDocument {
  import opened Options
  import opened Strings
  import opened Flatten

  /** A `synset` element: its attributes in document order, and its child elements. */
  datatype Element = Element(attrs: seq<(string, string)>, children: seq<Element>)

  /** The element as the scraper's XML-to-object conversion shapes it. */
  function ToValue(e: Element): (r: Value)
    ensures r.Obj? && |r.fields| == |e.attrs| + 1 && r.fields[0].0 == "synset"
    decreases e, 1
  {
    Obj([("synset", ArrOf(e))] + AttrFields(e.attrs))
  }

  /** The array of the element's children. */
  function ArrOf(e: Element): (r: Value)
    ensures r.Arr? && |r.items| == |e.children|
    ensures forall k :: 0 <= k < |e.children| ==> r.items[k] == ToValue(e.children[k])
    decreases e, 0
  {
    Arr(seq(|e.children|, k requires 0 <= k < |e.children| => ToValue(e.children[k])))
  }

  /** Attributes become string-valued fields under the same names. */
  function AttrFields(attrs: seq<(string, string)>): (r: seq<(string, Value)>)
    ensures |r| == |attrs|
    ensures forall k :: 0 <= k < |attrs| ==> r[k] == (attrs[k].0, Str(attrs[k].1))
  {
    seq(|attrs|, k requires 0 <= k < |attrs| => (attrs[k].0, Str(attrs[k].1)))
  }

  /** The document: a root object without attributes holding the top-level elements. */
  function Document(roots: seq<Element>): Value {
    ToValue(Element([], roots))
  }

  /** The value of attribute `name` of `e`, if it has one. */
  function Attr(e: Element, name: string): Option<string> {
    Get(e.attrs, name)
  }

  /**
   * The attribute names an XML element can carry here: distinct, none called
   * `synset` (that name is taken by the child array), and none mentioning
   * `num_finalgood` except that attribute itself.
   */
  predicate AttrsOk(attrs: seq<(string, string)>) {
    && (forall a, b :: 0 <= a < b < |attrs| ==> attrs[a].0 != attrs[b].0)
    && (forall a :: 0 <= a < |attrs| ==> attrs[a].0 != "synset")
    && (forall a :: 0 <= a < |attrs| ==> attrs[a].0 == "num_finalgood" || !Contains(attrs[a].0, "num_finalgood"))
  }

  /** Every element has well-formed attributes and fewer than 10000 children. */
  predicate WellFormed(e: Element)
    decreases e
  {
    && |e.children| < 10000
    && AttrsOk(e.attrs)
    && forall k :: 0 <= k < |e.children| ==> WellFormed(e.children[k])
  }

  /** One element's entry in the flat output: its key, its label and its size attribute. */
  datatype Slot = Slot(key: string, name: Option<string>, size: Option<string>)

  /**
   * The reference: the children `i..` of `e`, whose array sits at path `prop`,
   * each followed by its own descendants (document order), labelled by
   * chaining onto `parent`.
   */
  function Expected(e: Element, i: nat, prop: string, parent: Option<string>): seq<Slot>
    requires i <= |e.children|
    decreases e, |e.children| - i
  {
    if i == |e.children| then []
    else
      var c := e.children[i];
      var key := ElementKey(prop, i);
      var name := Chain(parent, Attr(c, "words"));
      [Slot(key, name, Attr(c, "num_finalgood"))] + Expected(c, 0, key + ".synset", name) + Expected(e, i + 1, prop, parent)
  }

  /**
   * Labels along the reference follow the ancestor line: when the children of
   * `e` are chained onto the label of an ancestor line `ws`, child `i` gets the
   * label of the line extended by its own words, and its children are chained
   * onto that extended line.
   */
  lemma ExpectedAlong(e: Element, i: nat, prop: string, ws: seq<Option<string>>)
    requires i < |e.children|
    ensures var c, key := e.children[i], ElementKey(prop, i);
      var line := ws + [Attr(c, "words")];
      Expected(e, i, prop, LabelAlong(ws)) ==
        [Slot(key, LabelAlong(line), Attr(c, "num_finalgood"))]
        + Expected(c, 0, key + ".synset", LabelAlong(line))
        + Expected(e, i + 1, prop, LabelAlong(ws))
  {
    var line := ws + [Attr(e.children[i], "words")];
    assert line[..|line| - 1] == ws;
  }

  /** A size attribute as the number dictionary holds it. */
  function SizeValue(size: Option<string>): Option<Value> {
    if size.Some? then Some(Str(size.value)) else None
  }

  /** The labels dictionary the reference slots describe. */
  function Pairs(slots: seq<Slot>): (r: Dict<Option<string>>)
    ensures |r| == |slots|
    ensures forall k :: 0 <= k < |slots| ==> r[k] == (slots[k].key, slots[k].name)
  {
    seq(|slots|, k requires 0 <= k < |slots| => (slots[k].key, slots[k].name))
  }

  /** The flat records the reference slots describe. */
  function Records(slots: seq<Slot>): (r: seq<FlatRecord>)
    ensures |r| == |slots|
    ensures forall k :: 0 <= k < |slots| ==> r[k] == FlatRecord(slots[k].name, SizeValue(slots[k].size))
  {
    seq(|slots|, k requires 0 <= k < |slots| => FlatRecord(slots[k].name, SizeValue(slots[k].size)))
  }

  lemma PairsAppend(a: seq<Slot>, b: seq<Slot>)
    ensures Pairs(a + b) == Pairs(a) + Pairs(b)
  {
  }

  // ---------------------------------------------------------------------
  // Keys and prefixes

  /** No key on the walk's paths contains the letter 'u', so none contains "num_finalgood" by accident. */
  predicate NoU(s: string) {
    forall k :: 0 <= k < |s| ==> s[k] != 'u'
  }

  /** All keys of `d` start with `q`. */
  predicate KeysUnder<V>(d: Dict<V>, q: string) {
    forall k :: 0 <= k < |d| ==> HasPrefix(d[k].0, q)
  }

  /** No key starting with `q` is in either dictionary yet. */
  ghost predicate Fresh(st: State, q: string) {
    forall k :: HasPrefix(k, q) ==> Get(st.labels, k).None? && Get(st.nums, k).None?
  }

  /** `k` lies outside the subtrees of elements `from..to` of the array at `prop`. */
  ghost predicate Outside(k: string, prop: string, from: nat, to: nat) {
    forall j :: from <= j < to ==> !HasPrefix(k, ElementKey(prop, j))
  }

  lemma PrefixTrans(k: string, a: string, b: string)
    requires HasPrefix(k, a + b)
    ensures HasPrefix(k, a)
  {
    assert k[..|a|] == (a + b)[..|a|];
  }

  /** Two different keys of the same length cannot both start a string. */
  lemma PrefixExclusive(k: string, a: string, b: string)
    requires |a| == |b| && a != b && HasPrefix(k, a)
    ensures !HasPrefix(k, b)
  {
  }

  lemma GetUnder<V>(d: Dict<V>, q: string, k: string)
    requires KeysUnder(d, q) && !HasPrefix(k, q)
    ensures Get(d, k).None?
  {
  }

  /** Looking past a part whose keys all start with `q`, for a key that does not. */
  lemma GetSkipUnder<V>(d: Dict<V>, e: Dict<V>, q: string, k: string)
    requires KeysUnder(e, q) && !HasPrefix(k, q)
    ensures Get(d + e, k) == Get(d, k)
  {
    GetAppend(d, e, k);
    GetUnder(e, q, k);
  }

  lemma KeysUnderTrans<V>(d: Dict<V>, a: string, b: string)
    requires KeysUnder(d, a + b)
    ensures KeysUnder(d, a)
  {
    forall k | 0 <= k < |d|
      ensures HasPrefix(d[k].0, a)
    {
      PrefixTrans(d[k].0, a, b);
    }
  }

  lemma ElementKeyShape(prop: string, i: nat)
    requires i < 10000
    ensures |ElementKey(prop, i)| == |prop| + 6
    ensures HasPrefix(ElementKey(prop, i), prop + "[")
    ensures NoU(prop) ==> NoU(ElementKey(prop, i))
  {
    SegmentDigits(i);
    assert ElementKey(prop, i) == (prop + "[") + (IndexSegment(i) + "]");
  }

  /** Sibling subtrees are disjoint: a key under element `i` is under no other element of the array. */
  lemma SiblingsDisjoint(k: string, prop: string, i: nat, j: nat)
    requires i < 10000 && j < 10000 && i != j && HasPrefix(k, ElementKey(prop, i))
    ensures !HasPrefix(k, ElementKey(prop, j))
  {
    ElementKeyShape(prop, i);
    ElementKeyShape(prop, j);
    ElementKeyInjective(prop, i, j);
    PrefixExclusive(k, ElementKey(prop, i), ElementKey(prop, j));
  }

  /** A key under an element of the array at `prop` lies under `prop[`. */
  lemma ElementKeyUnder(k: string, prop: string, i: nat)
    requires HasPrefix(k, ElementKey(prop, i))
    ensures HasPrefix(k, prop + "[") && |k| > |prop| + 1
  {
    assert ElementKey(prop, i) == (prop + "[") + (IndexSegment(i) + "]");
    PrefixTrans(k, prop + "[", IndexSegment(i) + "]");
  }

  /** Every key of a child array lies under the element that holds it. */
  lemma ChildKeyUnder(k: string, key: string, j: nat)
    requires HasPrefix(k, ElementKey(key + ".synset", j))
    ensures HasPrefix(k, key) && |k| > |key|
  {
    ElementKeyUnder(k, key + ".synset", j);
    PrefixTrans(k, key + ".synset", "[");
    PrefixTrans(k, key, ".synset");
  }

  lemma KeysUnderElement<V>(d: Dict<V>, prop: string, i: nat)
    requires KeysUnder(d, ElementKey(prop, i))
    ensures KeysUnder(d, prop + "[")
  {
    forall x | 0 <= x < |d|
      ensures HasPrefix(d[x].0, prop + "[")
    {
      ElementKeyUnder(d[x].0, prop, i);
    }
  }

  /** The reference keys of children `i..` of the array at `prop` all lie under `prop[`. */
  lemma {:induction false} ExpectedKeys(e: Element, i: nat, prop: string, parent: Option<string>)
    requires WellFormed(e) && i <= |e.children|
    ensures KeysUnder(Pairs(Expected(e, i, prop, parent)), prop + "[")
    decreases e, |e.children| - i
  {
    if i < |e.children| {
      var c := e.children[i];
      var key := ElementKey(prop, i);
      var name := Chain(parent, Attr(c, "words"));
      var head := Slot(key, name, Attr(c, "num_finalgood"));
      var inner := Expected(c, 0, key + ".synset", name);
      var rest := Expected(e, i + 1, prop, parent);
      ExpectedKeys(c, 0, key + ".synset", name);
      ExpectedKeys(e, i + 1, prop, parent);
      KeysUnderTrans(Pairs(inner), key + ".synset", "[");
      assert HasPrefix(key, key);
      KeysUnderCons(head, inner, key, ".synset");
      KeysUnderElement(Pairs([head] + inner), prop, i);
      PairsAppend([head] + inner, rest);
      assert Expected(e, i, prop, parent) == [head] + inner + rest;
    }
  }

  // ---------------------------------------------------------------------
  // Paths that mention num_finalgood

  lemma OccursIn(s: string, pat: string, j: nat)
    requires OccursAt(s, pat, j)
    ensures Contains(s, pat)
  {
  }

  /** In `key.a` with no 'u' in the key, every 'u' lies inside `a`. */
  lemma UInField(key: string, a: string, i: nat)
    requires NoU(key) && i < |key| + 1 + |a|
    ensures i <= |key| ==> (key + "." + a)[i] != 'u'
    ensures i == |key| ==> (key + "." + a)[i] == '.'
  {
    var s := key + "." + a;
    if i < |key| {
      assert s[i] == key[i];
    } else if i == |key| {
      assert s[i] == '.';
    }
  }

  /** An occurrence that starts inside `a` is an occurrence in `a`. */
  lemma OccursInField(key: string, a: string, pat: string, j: nat)
    requires j >= |key| + 1 && OccursAt(key + "." + a, pat, j)
    ensures OccursAt(a, pat, j - |key| - 1)
  {
    var s := key + "." + a;
    var i := j - |key| - 1;
    forall t | 0 <= t < |pat|
      ensures a[i + t] == pat[t]
    {
      assert s[j + t] == s[j..j + |pat|][t];
    }
    assert a[i..i + |pat|] == pat;
  }

  /** Below a path without 'u', a field path mentions num_finalgood exactly when the field name does. */
  lemma FieldPathMentions(key: string, a: string)
    requires NoU(key)
    ensures Contains(key + "." + a, "num_finalgood") <==> Contains(a, "num_finalgood")
  {
    var s := key + "." + a;
    var pat := "num_finalgood";
    if Contains(a, pat) {
      var j := IndexOf(a, pat);
      assert s[|key| + 1 + j..|key| + 1 + j + |pat|] == a[j..j + |pat|];
      OccursIn(s, pat, |key| + 1 + j);
    }
    if Contains(s, pat) {
      var j := IndexOf(s, pat);
      assert s[j + 1] == s[j..j + |pat|][1] == 'u';
      assert s[j] == s[j..j + |pat|][0] == 'n';
      UInField(key, a, j);
      UInField(key, a, j + 1);
      OccursInField(key, a, pat, j);
      OccursIn(a, pat, j - |key| - 1);
    }
  }

  /** After a key without 'u', ".num_finalgood" can only occur right after the key. */
  lemma SizeSuffixOnly(key: string, j: int)
    requires NoU(key) && OccursAt(key + ".num_finalgood", ".num_finalgood", j)
    ensures j == |key|
  {
    var s := key + ".num_finalgood";
    assert s[j + 2] == s[j..j + 14][2] == 'u';
    if j + 2 >= |key| {
      assert s[j + 2] == ".num_finalgood"[j + 2 - |key|];
    }
  }

  /** The path of an element's own `num_finalgood` attribute maps back to the element's key. */
  lemma SizePathKey(key: string)
    requires NoU(key)
    ensures ReplaceFirst(key + "." + "num_finalgood", ".num_finalgood", "") == key
  {
    var s := key + ".num_finalgood";
    assert key + "." + "num_finalgood" == s;
    assert OccursAt(s, ".num_finalgood", |key|);
    SizeSuffixOnly(key, IndexOf(s, ".num_finalgood"));
    assert s[..|key|] == key;
  }

  // ---------------------------------------------------------------------
  // The walk over one element

  lemma GetHead<V>(d: Dict<V>, k: string)
    requires |d| > 0
    ensures Get(d, k) == if d[0].0 == k then Some(d[0].1) else Get(d[1..], k)
  {
  }

  /** The `words` field of an element's object is its `words` attribute. */
  lemma WordsOf(c: Element)
    requires AttrsOk(c.attrs)
    ensures Words(ToValue(c)) == Attr(c, "words")
  {
    var fields := ToValue(c).fields;
    assert fields[1..] == AttrFields(c.attrs);
    GetHead(fields, "words");
    var f := Find(c.attrs, "words");
    FindIs(AttrFields(c.attrs), "words", f);
  }

  /**
   * The fields of an element after the child array, from field `j` on: they
   * leave the labels alone and store the `num_finalgood` attribute, if it is
   * among them, under the element's own key.
   */
  lemma {:induction false} AttrFieldsWalk(c: Element, j: nat, key: string, st: State)
    requires AttrsOk(c.attrs) && 1 <= j <= |c.attrs| + 1 && NoU(key) && key != ""
    ensures var st' := WalkFields(ToValue(c), j, key, st);
      && st'.labels == st.labels
      && forall k :: Get(st'.nums, k) == if k == key && Get(c.attrs[j - 1..], "num_finalgood").Some?
                                        then SizeValue(Get(c.attrs[j - 1..], "num_finalgood"))
                                        else Get(st.nums, k)
    decreases |c.attrs| + 1 - j
  {
    var v := ToValue(c);
    if j <= |c.attrs| {
      var (a, w) := c.attrs[j - 1];
      assert v.fields[j] == (a, Str(w));
      var st1 := Walk(Str(w), key + "." + a, st);
      assert WalkFields(v, j, key, st) == WalkFields(v, j + 1, key, st1);
      AttrFieldsWalk(c, j + 1, key, st1);
      FieldPathMentions(key, a);
      GetHead(c.attrs[j - 1..], "num_finalgood");
      assert c.attrs[j - 1..][1..] == c.attrs[j..];
      if a == "num_finalgood" {
        SizePathKey(key);
        assert Get(c.attrs[j..], "num_finalgood").None? by {
          FindIs(c.attrs[j..], "num_finalgood", -1);
        }
        forall k
          ensures Get(st1.nums, k) == if k == key then Some(Str(w)) else Get(st.nums, k)
        {
          GetPut(st.nums, key, Str(w), k);
        }
      } else {
        assert st1 == st;
      }
    } else {
      assert c.attrs[j - 1..] == [];
    }
  }

  /** Walking an element's object: its child array under `key.synset`, then its attributes. */
  lemma ElementWalk(c: Element, key: string, st: State)
    requires AttrsOk(c.attrs) && NoU(key) && key != ""
    ensures var st2 := WalkItems(ArrOf(c), 0, key + ".synset", st);
      var st3 := Walk(ToValue(c), key, st);
      && st3.labels == st2.labels
      && forall k :: Get(st3.nums, k) == if k == key && Attr(c, "num_finalgood").Some?
                                        then SizeValue(Attr(c, "num_finalgood"))
                                        else Get(st2.nums, k)
  {
    var v := ToValue(c);
    var st2 := WalkItems(ArrOf(c), 0, key + ".synset", st);
    assert Walk(ArrOf(c), key + ".synset", st) == st2;
    assert v.fields[0] == ("synset", ArrOf(c));
    assert key + "." + "synset" == key + ".synset";
    assert WalkFields(v, 0, key, st) == WalkFields(v, 1, key, st2);
    AttrFieldsWalk(c, 1, key, st2);
    assert c.attrs[0..] == c.attrs;
  }

  // ---------------------------------------------------------------------
  // The walk over an array of elements

  /**
   * Walking from `st` to `st'` appended exactly `slots` to the labels, stored
   * each slot's size under its key, and left every number outside the subtrees
   * of elements `from..to` of the array at `prop` alone.
   */
  ghost predicate Walked(slots: seq<Slot>, prop: string, from: nat, to: nat, st: State, st': State) {
    && st'.labels == st.labels + Pairs(slots)
    && (forall k :: Outside(k, prop, from, to) ==> Get(st'.nums, k) == Get(st.nums, k))
    && (forall x :: 0 <= x < |slots| ==> Get(st'.nums, slots[x].key) == SizeValue(slots[x].size))
  }

  /** Once an element's label is stored, its child array finds it as the parent label, and the children's keys are fresh. */
  lemma ChildStart(st: State, key: string, name: Option<string>)
    requires Fresh(st, key)
    ensures var st1 := st.(labels := st.labels + [(key, name)]);
      && Lookup(st1.labels, Substring(key + ".synset", 0, |key + ".synset"| - 7)) == name
      && forall j :: Fresh(st1, ElementKey(key + ".synset", j))
  {
    var st1 := st.(labels := st.labels + [(key, name)]);
    assert (key + ".synset")[..|key|] == key;
    assert HasPrefix(key, key);
    GetAppend(st.labels, [(key, name)], key);
    forall j, k | HasPrefix(k, ElementKey(key + ".synset", j))
      ensures Get(st1.labels, k).None? && Get(st1.nums, k).None?
    {
      ChildKeyUnder(k, key, j);
      GetAppend(st.labels, [(key, name)], k);
    }
  }

  lemma PairsCons(head: Slot, inner: seq<Slot>, labels: Dict<Option<string>>)
    ensures labels + [(head.key, head.name)] + Pairs(inner) == labels + Pairs([head] + inner)
  {
    PairsAppend([head], inner);
    assert Pairs([head]) == [(head.key, head.name)];
  }

  lemma KeysUnderCons(head: Slot, inner: seq<Slot>, key: string, more: string)
    requires HasPrefix(head.key, key) && KeysUnder(Pairs(inner), key + more)
    ensures KeysUnder(Pairs([head] + inner), key)
  {
    KeysUnderTrans(Pairs(inner), key, more);
    PairsAppend([head], inner);
  }

  /** The labels an element's walk appends, its own and then its descendants', all lie under its key. */
  lemma ChildLabels(c: Element, key: string, name: Option<string>)
    requires WellFormed(c)
    ensures KeysUnder(Pairs([Slot(key, name, Attr(c, "num_finalgood"))] + Expected(c, 0, key + ".synset", name)), key)
  {
    var inner := Expected(c, 0, key + ".synset", name);
    ExpectedKeys(c, 0, key + ".synset", name);
    KeysUnderTrans(Pairs(inner), key + ".synset", "[");
    assert HasPrefix(key, key);
    KeysUnderCons(Slot(key, name, Attr(c, "num_finalgood")), inner, key, ".synset");
  }

  /** Numbers outside an element's subtree are untouched by the walk of its child array. */
  lemma ChildOutside(c: Element, key: string, k: string)
    requires !HasPrefix(k, key) || k == key
    ensures Outside(k, key + ".synset", 0, |c.children|)
  {
    forall j | 0 <= j < |c.children|
      ensures !HasPrefix(k, ElementKey(key + ".synset", j))
    {
      if HasPrefix(k, ElementKey(key + ".synset", j)) {
        ChildKeyUnder(k, key, j);
      }
    }
  }

  /** The descendants' keys are all longer than the element's own key. */
  lemma InnerKeysLonger(c: Element, key: string, name: Option<string>, x: nat)
    requires WellFormed(c) && x < |Expected(c, 0, key + ".synset", name)|
    ensures Expected(c, 0, key + ".synset", name)[x].key != key
  {
    var inner := Expected(c, 0, key + ".synset", name);
    ExpectedKeys(c, 0, key + ".synset", name);
    assert Pairs(inner)[x].0 == inner[x].key;
  }

  /** The element's own slot followed by its descendants' slots, as walking its object leaves them. */
  lemma ChildDone(c: Element, key: string, name: Option<string>, st: State, st2: State, st3: State)
    requires WellFormed(c) && Fresh(st, key)
    requires Walked(Expected(c, 0, key + ".synset", name), key + ".synset", 0, |c.children|, st.(labels := st.labels + [(key, name)]), st2)
    requires st3.labels == st2.labels
    requires forall k :: Get(st3.nums, k) == if k == key && Attr(c, "num_finalgood").Some?
                                            then SizeValue(Attr(c, "num_finalgood"))
                                            else Get(st2.nums, k)
    ensures var own := [Slot(key, name, Attr(c, "num_finalgood"))] + Expected(c, 0, key + ".synset", name);
      && st3.labels == st.labels + Pairs(own)
      && KeysUnder(Pairs(own), key)
      && (forall k :: !HasPrefix(k, key) ==> Get(st3.nums, k) == Get(st.nums, k))
      && (forall x :: 0 <= x < |own| ==> Get(st3.nums, own[x].key) == SizeValue(own[x].size))
  {
    var inner := Expected(c, 0, key + ".synset", name);
    PairsCons(Slot(key, name, Attr(c, "num_finalgood")), inner, st.labels);
    ChildLabels(c, key, name);
    ChildDoneOutside(c, key, name, st, st2, st3);
    ChildDoneSizes(c, key, name, st, st2, st3);
  }

  lemma ChildDoneOutside(c: Element, key: string, name: Option<string>, st: State, st2: State, st3: State)
    requires Walked(Expected(c, 0, key + ".synset", name), key + ".synset", 0, |c.children|, st.(labels := st.labels + [(key, name)]), st2)
    requires forall k :: Get(st3.nums, k) == if k == key && Attr(c, "num_finalgood").Some?
                                            then SizeValue(Attr(c, "num_finalgood"))
                                            else Get(st2.nums, k)
    ensures forall k :: !HasPrefix(k, key) ==> Get(st3.nums, k) == Get(st.nums, k)
  {
    assert HasPrefix(key, key);
    forall k | !HasPrefix(k, key)
      ensures Get(st3.nums, k) == Get(st.nums, k)
    {
      ChildOutside(c, key, k);
    }
  }

  lemma ChildDoneSizes(c: Element, key: string, name: Option<string>, st: State, st2: State, st3: State)
    requires WellFormed(c) && Fresh(st, key)
    requires Walked(Expected(c, 0, key + ".synset", name), key + ".synset", 0, |c.children|, st.(labels := st.labels + [(key, name)]), st2)
    requires forall k :: Get(st3.nums, k) == if k == key && Attr(c, "num_finalgood").Some?
                                            then SizeValue(Attr(c, "num_finalgood"))
                                            else Get(st2.nums, k)
    ensures var own := [Slot(key, name, Attr(c, "num_finalgood"))] + Expected(c, 0, key + ".synset", name);
      forall x :: 0 <= x < |own| ==> Get(st3.nums, own[x].key) == SizeValue(own[x].size)
  {
    var inner := Expected(c, 0, key + ".synset", name);
    var own := [Slot(key, name, Attr(c, "num_finalgood"))] + inner;
    ChildOutside(c, key, key);
    assert HasPrefix(key, key);
    assert Get(st3.nums, own[0].key) == SizeValue(own[0].size);
    forall x | 1 <= x < |own|
      ensures Get(st3.nums, own[x].key) == SizeValue(own[x].size)
    {
      assert own[x] == inner[x - 1];
      InnerKeysLonger(c, key, name, x - 1);
    }
  }

  /** Keys under element `i` of an array lie outside the subtrees of the later elements. */
  lemma UnderOneOutsideLater(k: string, prop: string, i: nat, n: nat)
    requires i < n <= 10000 && HasPrefix(k, ElementKey(prop, i))
    ensures Outside(k, prop, i + 1, n)
  {
    forall j | i + 1 <= j < n
      ensures !HasPrefix(k, ElementKey(prop, j))
    {
      SiblingsDisjoint(k, prop, i, j);
    }
  }

  /** After element `i` of `n`, the parent label is unchanged and the keys of the later siblings are still fresh. */
  lemma SiblingsStart(n: nat, i: nat, prop: string, parent: Option<string>, own: seq<Slot>, st: State, st3: State)
    requires i < n <= 10000
    requires Lookup(st.labels, Substring(prop, 0, |prop| - 7)) == parent
    requires forall j :: i <= j < n ==> Fresh(st, ElementKey(prop, j))
    requires st3.labels == st.labels + Pairs(own) && KeysUnder(Pairs(own), ElementKey(prop, i))
    requires forall k :: !HasPrefix(k, ElementKey(prop, i)) ==> Get(st3.nums, k) == Get(st.nums, k)
    ensures Lookup(st3.labels, Substring(prop, 0, |prop| - 7)) == parent
    ensures forall j :: i + 1 <= j < n ==> Fresh(st3, ElementKey(prop, j))
  {
    ElementKeyShape(prop, i);
    GetSkipUnder(st.labels, Pairs(own), ElementKey(prop, i), Substring(prop, 0, |prop| - 7));
    forall j | i + 1 <= j < n
      ensures Fresh(st3, ElementKey(prop, j))
    {
      SiblingFresh(n, i, j, prop, own, st, st3);
    }
  }

  /** A later sibling's key, fresh before element `i` was walked, is still fresh after. */
  lemma SiblingFresh(n: nat, i: nat, j: nat, prop: string, own: seq<Slot>, st: State, st3: State)
    requires i < j < n <= 10000
    requires Fresh(st, ElementKey(prop, j))
    requires st3.labels == st.labels + Pairs(own) && KeysUnder(Pairs(own), ElementKey(prop, i))
    requires forall k :: !HasPrefix(k, ElementKey(prop, i)) ==> Get(st3.nums, k) == Get(st.nums, k)
    ensures Fresh(st3, ElementKey(prop, j))
  {
    forall k | HasPrefix(k, ElementKey(prop, j))
      ensures Get(st3.labels, k).None? && Get(st3.nums, k).None?
    {
      SiblingsDisjoint(k, prop, j, i);
      GetSkipUnder(st.labels, Pairs(own), ElementKey(prop, i), k);
    }
  }

  lemma WalkedSizes(own: seq<Slot>, rest: seq<Slot>, prop: string, i: nat, n: nat, st3: State, st4: State)
    requires i < n <= 10000 && KeysUnder(Pairs(own), ElementKey(prop, i))
    requires forall x :: 0 <= x < |own| ==> Get(st3.nums, own[x].key) == SizeValue(own[x].size)
    requires Walked(rest, prop, i + 1, n, st3, st4)
    ensures forall x :: 0 <= x < |own + rest| ==> Get(st4.nums, (own + rest)[x].key) == SizeValue((own + rest)[x].size)
  {
    forall x | 0 <= x < |own + rest|
      ensures Get(st4.nums, (own + rest)[x].key) == SizeValue((own + rest)[x].size)
    {
      if x < |own| {
        assert Pairs(own)[x].0 == own[x].key;
        UnderOneOutsideLater(own[x].key, prop, i, n);
      } else {
        assert (own + rest)[x] == rest[x - |own|];
      }
    }
  }

  lemma WalkedLabels(own: seq<Slot>, rest: seq<Slot>, labels: Dict<Option<string>>, labels3: Dict<Option<string>>, labels4: Dict<Option<string>>)
    requires labels3 == labels + Pairs(own) && labels4 == labels3 + Pairs(rest)
    ensures labels4 == labels + Pairs(own + rest)
  {
    PairsAppend(own, rest);
  }

  lemma WalkedOutside(prop: string, i: nat, n: nat, nums: Dict<Value>, nums3: Dict<Value>, nums4: Dict<Value>)
    requires i < n
    requires forall k :: !HasPrefix(k, ElementKey(prop, i)) ==> Get(nums3, k) == Get(nums, k)
    requires forall k :: Outside(k, prop, i + 1, n) ==> Get(nums4, k) == Get(nums3, k)
    ensures forall k :: Outside(k, prop, i, n) ==> Get(nums4, k) == Get(nums, k)
  {
    forall k | Outside(k, prop, i, n)
      ensures Get(nums4, k) == Get(nums, k)
    {
      assert !HasPrefix(k, ElementKey(prop, i));
      assert Outside(k, prop, i + 1, n);
    }
  }

  /** Element `i` of `n` and its subtree, then the later siblings, make up the walk of elements `i..`. */
  lemma SiblingsDone(n: nat, i: nat, prop: string, own: seq<Slot>, rest: seq<Slot>, st: State, st3: State, st4: State)
    requires i < n <= 10000
    requires st3.labels == st.labels + Pairs(own) && KeysUnder(Pairs(own), ElementKey(prop, i))
    requires forall k :: !HasPrefix(k, ElementKey(prop, i)) ==> Get(st3.nums, k) == Get(st.nums, k)
    requires forall x :: 0 <= x < |own| ==> Get(st3.nums, own[x].key) == SizeValue(own[x].size)
    requires Walked(rest, prop, i + 1, n, st3, st4)
    ensures Walked(own + rest, prop, i, n, st, st4)
  {
    WalkedLabels(own, rest, st.labels, st3.labels, st4.labels);
    WalkedOutside(prop, i, n, st.nums, st3.nums, st4.nums);
    WalkedSizes(own, rest, prop, i, n, st3, st4);
  }

  /**
   * The heart of the flattener: walking elements `i..` of the array at `prop`
   * appends exactly their reference slots to the labels, in document order,
   * and stores each element's size under its key.
   */
  lemma {:induction false} WalkItemsSpec(e: Element, i: nat, prop: string, parent: Option<string>, st: State)
    requires WellFormed(e) && i <= |e.children| && NoU(prop)
    requires Lookup(st.labels, Substring(prop, 0, |prop| - 7)) == parent
    requires forall j :: i <= j < |e.children| ==> Fresh(st, ElementKey(prop, j))
    ensures Walked(Expected(e, i, prop, parent), prop, i, |e.children|, st, WalkItems(ArrOf(e), i, prop, st))
    decreases e, |e.children| - i, 1
  {
    var n := |e.children|;
    if i < n {
      var c := e.children[i];
      var key := ElementKey(prop, i);
      var name := Chain(parent, Attr(c, "words"));
      var st3 := Walk(ToValue(c), key, st.(labels := st.labels + [(key, name)]));
      var own := [Slot(key, name, Attr(c, "num_finalgood"))] + Expected(c, 0, key + ".synset", name);
      ElementSpec(e, i, prop, parent, st);
      WalkItemsSpec(e, i + 1, prop, parent, st3);
      var rest := Expected(e, i + 1, prop, parent);
      SiblingsDone(n, i, prop, own, rest, st, st3, WalkItems(ArrOf(e), i + 1, prop, st3));
      assert Expected(e, i, prop, parent) == own + rest;
    } else {
      assert Expected(e, i, prop, parent) == [];
      assert st.labels + [] == st.labels;
    }
  }

  /**
   * Element `i` of the array at `prop`: its walk appends its own slot and its
   * descendants', stores their sizes, touches no number outside its subtree,
   * and leaves the parent label and the later siblings' keys as they were.
   */
  lemma {:induction false} ElementSpec(e: Element, i: nat, prop: string, parent: Option<string>, st: State)
    requires WellFormed(e) && i < |e.children| && NoU(prop)
    requires Lookup(st.labels, Substring(prop, 0, |prop| - 7)) == parent
    requires forall j :: i <= j < |e.children| ==> Fresh(st, ElementKey(prop, j))
    ensures var c := e.children[i];
      var key := ElementKey(prop, i);
      var name := Chain(parent, Attr(c, "words"));
      var st3 := Walk(ToValue(c), key, st.(labels := st.labels + [(key, name)]));
      var own := [Slot(key, name, Attr(c, "num_finalgood"))] + Expected(c, 0, key + ".synset", name);
      && WalkItems(ArrOf(e), i, prop, st) == WalkItems(ArrOf(e), i + 1, prop, st3)
      && st3.labels == st.labels + Pairs(own) && KeysUnder(Pairs(own), key)
      && (forall k :: !HasPrefix(k, key) ==> Get(st3.nums, k) == Get(st.nums, k))
      && (forall x :: 0 <= x < |own| ==> Get(st3.nums, own[x].key) == SizeValue(own[x].size))
      && Lookup(st3.labels, Substring(prop, 0, |prop| - 7)) == parent
      && (forall j :: i + 1 <= j < |e.children| ==> Fresh(st3, ElementKey(prop, j)))
    decreases e, |e.children| - i, 0
  {
    var n := |e.children|;
    var c := e.children[i];
    var key := ElementKey(prop, i);
    var name := Chain(parent, Attr(c, "words"));
    ElementKeyShape(prop, i);
    WordsOf(c);
    assert Fresh(st, key);
    assert HasPrefix(key, key);
    var st1 := st.(labels := st.labels + [(key, name)]);
    assert WalkItems(ArrOf(e), i, prop, st) == WalkItems(ArrOf(e), i + 1, prop, Walk(ToValue(c), key, st1));
    ChildStart(st, key, name);
    WalkItemsSpec(c, 0, key + ".synset", name, st1);
    ElementWalk(c, key, st1);
    var st2 := WalkItems(ArrOf(c), 0, key + ".synset", st1);
    var st3 := Walk(ToValue(c), key, st1);
    ChildDone(c, key, name, st, st2, st3);
    var own := [Slot(key, name, Attr(c, "num_finalgood"))] + Expected(c, 0, key + ".synset", name);
    SiblingsStart(n, i, prop, parent, own, st, st3);
  }

  /**
   * The flat list of a document: one record per element in document order,
   * named by its ancestors' and its own `words` joined with " > " and sized
   * by its own `num_finalgood` (undefined when the element has none).
   */
  lemma {:induction false} FlattenDocumentRecords(roots: seq<Element>)
    requires WellFormed(Element([], roots))
    ensures Merge(Flatten.Flatten(Document(roots))) == Records(Expected(Element([], roots), 0, "synset", None))
  {
    var root := Element([], roots);
    var st0 := State([], []);
    var v := ToValue(root);
    assert v.fields == [("synset", ArrOf(root))];
    assert WalkFields(v, 0, "", st0) == WalkFields(v, 1, "", Walk(ArrOf(root), "synset", st0));
    var st := WalkItems(ArrOf(root), 0, "synset", st0);
    assert Flatten.Flatten(Document(roots)) == st;
    assert NoU("synset");
    WalkItemsSpec(root, 0, "synset", None, st0);
    var slots := Expected(root, 0, "synset", None);
    assert st.labels == Pairs(slots);
  }
}
