/**
 * The flattener (`__flatten` and `__merge` in src/App.js): a depth-first walk
 * over a JSON-like value that names every element of every array by its path
 * key (`prop[0003]`), gives it a label chained from the enclosing element's
 * label with " > ", records the value of every scalar whose path mentions
 * `num_finalgood`, and finally pairs each label with the number stored under
 * the same key.
 */
module Flatten {
  import opened Options
  import opened Strings

  /** A JSON-like value. Object fields keep their insertion order. */
  datatype Value = Str(s: string) | Arr(items: seq<Value>) | Obj(fields: seq<(string, Value)>)

  /**
   * A JavaScript object used as a string-keyed dictionary: keys are enumerated
   * in insertion order, and assigning to a key that is already present keeps
   * its position.
   */
  type Dict<V> = seq<(string, V)>

  /** The position of key `k` in `d`, or -1. */
  function Find<V>(d: Dict<V>, k: string): (r: int)
    ensures -1 <= r < |d|
    ensures r >= 0 ==> d[r].0 == k && forall j :: 0 <= j < r ==> d[j].0 != k
    ensures r == -1 ==> forall j :: 0 <= j < |d| ==> d[j].0 != k
  {
    if |d| == 0 then -1
    else if d[0].0 == k then 0
    else
      var r := Find(d[1..], k);
      if r < 0 then -1 else r + 1
  }

  /** `d[k]`, with `None` for a missing key. */
  function Get<V>(d: Dict<V>, k: string): Option<V> {
    var r := Find(d, k);
    if r < 0 then None else Some(d[r].1)
  }

  /** `d[k] = v` */
  function Put<V>(d: Dict<V>, k: string, v: V): (r: Dict<V>)
    ensures Get(d, k).None? ==> r == d + [(k, v)]
    ensures Get(d, k).Some? ==> |r| == |d| && forall j :: 0 <= j < |d| ==> r[j].0 == d[j].0
  {
    var i := Find(d, k);
    if i < 0 then d + [(k, v)] else d[i := (k, v)]
  }

  /** The first position holding key `k` is the one `Find` reports. */
  lemma FindIs<V>(d: Dict<V>, k: string, j: int)
    requires -1 <= j < |d|
    requires j >= 0 ==> d[j].0 == k && forall i :: 0 <= i < j ==> d[i].0 != k
    requires j == -1 ==> forall i :: 0 <= i < |d| ==> d[i].0 != k
    ensures Find(d, k) == j
  {
  }

  /** Reading back after an assignment: the assigned key has the new value, all others keep theirs. */
  lemma GetPut<V>(d: Dict<V>, k: string, v: V, k': string)
    ensures Get(Put(d, k, v), k') == if k' == k then Some(v) else Get(d, k')
  {
    var r := Find(d, k);
    var d' := Put(d, k, v);
    var f := Find(d, k');
    if r < 0 {
      if k' == k {
        FindIs(d', k', |d|);
      } else {
        if f >= 0 {
          FindIs(d', k', f);
        } else {
          FindIs(d', k', -1);
        }
      }
    } else {
      if k' == k {
        FindIs(d', k', r);
      } else if f >= 0 {
        FindIs(d', k', f);
      } else {
        FindIs(d', k', -1);
      }
    }
  }

  /** Looking up in a concatenation: the first part wins. */
  lemma GetAppend<V>(d: Dict<V>, e: Dict<V>, k: string)
    ensures Get(d + e, k) == if Get(d, k).Some? then Get(d, k) else Get(e, k)
  {
    var f := Find(d, k);
    var g := Find(e, k);
    if f >= 0 {
      FindIs(d + e, k, f);
    } else if g >= 0 {
      FindIs(d + e, k, |d| + g);
    } else {
      FindIs(d + e, k, -1);
    }
  }

  /** A dictionary of labels maps keys to strings or to `undefined`; reading a missing key also gives `undefined`. */
  function Lookup(d: Dict<Option<string>>, k: string): Option<string> {
    match Get(d, k)
    case None => None
    case Some(v) => v
  }

  /** String concatenation of a possibly `undefined` value. */
  function Show(w: Option<string>): string {
    match w
    case None => "undefined"
    case Some(s) => s
  }

  /**
   * The label of an element: the enclosing label, " > " and the element's own
   * words when the enclosing label is a non-empty string; otherwise just the
   * element's words.
   */
  function Chain(parent: Option<string>, words: Option<string>): Option<string> {
    if parent.Some? && parent.value != "" then Some(parent.value + " > " + Show(words)) else words
  }

  /**
   * The label of the last element of an ancestor line whose elements have
   * the given `words`, chaining from the top-level element down.
   */
  function LabelAlong(ws: seq<Option<string>>): Option<string> {
    if |ws| == 0 then None else Chain(LabelAlong(ws[..|ws| - 1]), ws[|ws| - 1])
  }

  /** When every element on the line has non-empty words, the label is those words joined with " > ". */
  lemma {:induction false} LabelAlongJoin(ws: seq<string>)
    requires |ws| >= 1 && forall k :: 0 <= k < |ws| ==> ws[k] != ""
    ensures LabelAlong(seq(|ws|, k requires 0 <= k < |ws| => Some(ws[k]))) == Some(Join(ws, " > "))
    decreases |ws|
  {
    var os := seq(|ws|, k requires 0 <= k < |ws| => Some(ws[k]));
    var init := ws[..|ws| - 1];
    if |ws| > 1 {
      LabelAlongJoin(init);
      assert os[..|os| - 1] == seq(|init|, k requires 0 <= k < |init| => Some(init[k]));
      JoinSnoc(init, ws[|ws| - 1], " > ");
      assert init + [ws[|ws| - 1]] == ws;
      assert Join(init, " > ") != "" by {
        JoinFirst(init, " > ");
      }
    } else {
      assert os[..0] == [];
    }
  }

  /** A label that is missing or empty restarts the chain: the next element is labelled by its own words. */
  lemma ChainRestarts(ws: seq<Option<string>>, j: nat)
    requires j < |ws| - 1 && (LabelAlong(ws[..j + 1]).None? || LabelAlong(ws[..j + 1]) == Some(""))
    ensures LabelAlong(ws[..j + 2]) == ws[j + 1]
  {
    assert ws[..j + 2][..j + 1] == ws[..j + 1];
  }

  /** `v.words` when it holds a string; `undefined` otherwise. */
  function Words(v: Value): Option<string> {
    match v
    case Obj(fields) =>
      var w := Get(fields, "words");
      if w.Some? && w.value.Str? then Some(w.value.s) else None
    case _ => None
  }

  /** The index segment of an array element's key: zero-padded to four digits below 1000, plain decimal above. */
  function IndexSegment(i: nat): string {
    if i < 10 then "000" + Dec(i)
    else if i < 100 then "00" + Dec(i)
    else if i < 1000 then "0" + Dec(i)
    else Dec(i)
  }

  /** The key of element `i` of the array found at path `prop`. */
  function ElementKey(prop: string, i: nat): string {
    prop + "[" + IndexSegment(i) + "]"
  }

  /** The two dictionaries the walk fills: numbers by key, and labels by element key. */
  datatype State = State(nums: Dict<Value>, labels: Dict<Option<string>>)

  /** The recursive walk of `__flatten` at value `cur` found under path `prop`. */
  function Walk(cur: Value, prop: string, st: State): State
    decreases cur, 1
  {
    match cur
    case Str(_) =>
      if Contains(prop, "num_finalgood")
      then st.(nums := Put(st.nums, ReplaceFirst(prop, ".num_finalgood", ""), cur))
      else st
    case Arr(_) => WalkItems(cur, 0, prop, st)
    case Obj(fields) =>
      var st' := WalkFields(cur, 0, prop, st);
      if |fields| == 0 && prop != "" then st'.(nums := Put(st'.nums, prop, Obj([]))) else st'
  }

  /** The loop over array elements `i..`: key, label, then the element itself. */
  function WalkItems(cur: Value, i: nat, prop: string, st: State): State
    requires cur.Arr? && i <= |cur.items|
    decreases cur, 0, |cur.items| - i
  {
    if i == |cur.items| then st
    else
      var modKey := ElementKey(prop, i);
      var parentKey := Substring(prop, 0, |modKey| - 13);
      var chained := Chain(Lookup(st.labels, parentKey), Words(cur.items[i]));
      var st1 := st.(labels := Put(st.labels, modKey, chained));
      WalkItems(cur, i + 1, prop, Walk(cur.items[i], modKey, st1))
  }

  /** The loop over object fields `j..`, extending the path with "." (or starting it). */
  function WalkFields(cur: Value, j: nat, prop: string, st: State): State
    requires cur.Obj? && j <= |cur.fields|
    decreases cur, 0, |cur.fields| - j
  {
    if j == |cur.fields| then st
    else
      var (p, v) := cur.fields[j];
      WalkFields(cur, j + 1, prop, Walk(v, if prop != "" then prop + "." + p else p, st))
  }

  /** `__flatten(data)`: both dictionaries, starting from the empty path. */
  function Flatten(data: Value): State {
    Walk(data, "", State([], []))
  }

  /** A record of the flat list; either part may be `undefined`. */
  datatype FlatRecord = FlatRecord(name: Option<string>, size: Option<Value>)

  /** `__merge`: one record per label key, in key order, with the number stored under the same key. */
  function Merge(st: State): seq<FlatRecord> {
    seq(|st.labels|, k requires 0 <= k < |st.labels| => FlatRecord(st.labels[k].1, Get(st.nums, st.labels[k].0)))
  }

  predicate AllZeros(z: string) {
    forall k :: 0 <= k < |z| ==> z[k] == '0'
  }

  lemma {:induction false} ZerosValue(z: string)
    requires AllZeros(z)
    ensures AllDigits(z) && DigitsValue(z) == 0
    decreases |z|
  {
    if |z| > 0 {
      ZerosValue(z[..|z| - 1]);
    }
  }

  lemma PaddedValue(z: string, i: nat)
    requires AllZeros(z) && |z| + |Dec(i)| == 4
    ensures |z + Dec(i)| == 4 && AllDigits(z + Dec(i)) && DigitsValue(z + Dec(i)) == i
  {
    ZerosValue(z);
    LeadingZeros(z, Dec(i));
  }

  /** Below 10000 the index segment is exactly the four-digit decimal form of the index. */
  lemma SegmentDigits(i: nat)
    requires i < 10000
    ensures |IndexSegment(i)| == 4 && AllDigits(IndexSegment(i)) && DigitsValue(IndexSegment(i)) == i
  {
    DecLength(i);
    if i < 10 {
      PaddedValue("000", i);
    } else if i < 100 {
      PaddedValue("00", i);
    } else if i < 1000 {
      PaddedValue("0", i);
    } else {
      PaddedValue("", i);
      assert "" + Dec(i) == Dec(i);
    }
  }

  /** From 10000 on the segment is the plain decimal form, at least five characters long. */
  lemma SegmentLong(i: nat)
    requires i >= 10000
    ensures |IndexSegment(i)| >= 5 && IndexSegment(i) == Dec(i)
  {
    DecLength(i);
  }

  /** Below 10000, comparing two segments as strings compares the indexes. */
  lemma SegmentOrder(i: nat, j: nat)
    requires i < 10000 && j < 10000
    ensures LexLess(IndexSegment(i), IndexSegment(j)) <==> i < j
    ensures IndexSegment(i) == IndexSegment(j) <==> i == j
  {
    SegmentDigits(i);
    SegmentDigits(j);
    LexLessDigits(IndexSegment(i), IndexSegment(j));
  }

  lemma {:induction false} LexLessCommonPrefix(p: string, a: string, b: string)
    ensures LexLess(p + a, p + b) <==> LexLess(a, b)
    decreases |p|
  {
    if |p| > 0 {
      assert (p + a)[1..] == p[1..] + a;
      assert (p + b)[1..] == p[1..] + b;
      LexLessCommonPrefix(p[1..], a, b);
    } else {
      assert p + a == a && p + b == b;
    }
  }

  lemma {:induction false} LexLessFirstDifference(a: string, x: string, b: string, y: string)
    requires |a| == |b| && a != b
    ensures LexLess(a + x, b + y) <==> LexLess(a, b)
    decreases |a|
  {
    assert |a| > 0;
    if a[0] == b[0] {
      assert a[1..] != b[1..] by {
        assert a == [a[0]] + a[1..] && b == [b[0]] + b[1..];
      }
      assert (a + x)[1..] == a[1..] + x;
      assert (b + y)[1..] == b[1..] + y;
      LexLessFirstDifference(a[1..], x, b[1..], y);
    }
  }

  /**
   * Element keys of one array sort in element order for the first 10000
   * elements, which is why the keys are zero-padded.
   */
  lemma ElementKeyOrder(prop: string, i: nat, j: nat)
    requires i < 10000 && j < 10000 && i != j
    ensures LexLess(ElementKey(prop, i), ElementKey(prop, j)) <==> i < j
  {
    SegmentOrder(i, j);
    SegmentDigits(i);
    SegmentDigits(j);
    assert IndexSegment(i) != IndexSegment(j);
    assert ElementKey(prop, i) == (prop + "[") + (IndexSegment(i) + "]");
    assert ElementKey(prop, j) == (prop + "[") + (IndexSegment(j) + "]");
    LexLessCommonPrefix(prop + "[", IndexSegment(i) + "]", IndexSegment(j) + "]");
    LexLessFirstDifference(IndexSegment(i), "]", IndexSegment(j), "]");
  }

  /** Keys of distinct elements of one array differ, for the first 10000 elements. */
  lemma ElementKeyInjective(prop: string, i: nat, j: nat)
    requires i < 10000 && j < 10000
    ensures ElementKey(prop, i) == ElementKey(prop, j) <==> i == j
  {
    SegmentOrder(i, j);
    SegmentDigits(i);
    SegmentDigits(j);
    if ElementKey(prop, i) == ElementKey(prop, j) {
      assert ElementKey(prop, i)[|prop| + 1..|prop| + 5] == IndexSegment(i);
      assert ElementKey(prop, j)[|prop| + 1..|prop| + 5] == IndexSegment(j);
    }
  }

  /**
   * The parent lookup of a nested element: the element key minus 13 characters
   * ("[dddd].synset" plus its own "[dddd]") is the parent's key exactly when the
   * element's index has four digits; from index 10000 on the lookup misses.
   */
  lemma ParentKeyOf(key: string, i: nat)
    ensures var prop := key + ".synset";
      i < 10000 <==> Substring(prop, 0, |ElementKey(prop, i)| - 13) == key
  {
    var prop := key + ".synset";
    if i < 10000 {
      SegmentDigits(i);
      assert prop[..|key|] == key;
    } else {
      SegmentLong(i);
    }
  }

  /**
   * The same lookup for a top-level element gives the empty string; no label
   * key is empty, so the lookup finds nothing and the label is the element's
   * own words.
   */
  lemma TopParentKey(labels: Dict<Option<string>>, i: nat, words: Option<string>)
    requires i < 10000
    ensures Substring("synset", 0, |ElementKey("synset", i)| - 13) == ""
    ensures (forall j :: 0 <= j < |labels| ==> labels[j].0 != "") ==>
      Lookup(labels, "").None? && Chain(Lookup(labels, ""), words) == words
  {
    SegmentDigits(i);
  }
}
