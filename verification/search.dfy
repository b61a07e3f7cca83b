/**
 * The linear search over the tuple list (`search` and
 * `__numericSortDescending`). A query names a field (`equal`, `lesser` or
 * `greater`) and a term; the answer is the sentinel "No matching tuples!",
 * the whole tree (for an empty term), or the matching tuples by descending
 * size. Sizes are integers.
 */
module Search {
  import opened Options
  import opened Strings
  import opened Tuples

  // ---------------------------------------------------------------------
  // White-space collapsing

  /** No two white-space characters in a row. */
  predicate SingleSpaced(r: string) {
    forall k :: 0 <= k < |r| - 1 ==> !(IsSpace(r[k]) && IsSpace(r[k + 1]))
  }

  /** Collapsing keeps the first character when it is not white space, and keeps white space at the start as white space. */
  lemma CollapseHead(s: string)
    requires |s| > 0
    ensures |CollapseSpaces(s)| > 0
    ensures IsSpace(CollapseSpaces(s)[0]) <==> IsSpace(s[0])
    ensures !IsSpace(s[0]) ==> CollapseSpaces(s) == [s[0]] + CollapseSpaces(s[1..])
  {
  }

  /** The end of a white-space run is not white space. */
  lemma AfterRun(s: string)
    ensures var n := SpaceRun(s);
      n == |s| || (|CollapseSpaces(s[n..])| > 0 && !IsSpace(CollapseSpaces(s[n..])[0]))
  {
    var n := SpaceRun(s);
    if n < |s| {
      CollapseHead(s[n..]);
    }
  }

  /** A collapsed string has no two white-space characters in a row. */
  lemma {:induction false} CollapseSingleSpaced(s: string)
    ensures SingleSpaced(CollapseSpaces(s))
    decreases |s|
  {
    if |s| > 0 {
      var n := SpaceRun(s);
      var r := CollapseSpaces(s);
      if n >= 2 {
        CollapseSingleSpaced(s[n..]);
        AfterRun(s);
        assert r == " " + CollapseSpaces(s[n..]);
      } else {
        CollapseSingleSpaced(s[1..]);
        if |s| > 1 {
          CollapseHead(s[1..]);
        }
        assert r == [s[0]] + CollapseSpaces(s[1..]);
      }
    }
  }

  /** A string without two white-space characters in a row is left alone. */
  lemma {:induction false} CollapseSingleSpacedFixed(r: string)
    requires SingleSpaced(r)
    ensures CollapseSpaces(r) == r
    decreases |r|
  {
    if |r| > 0 {
      assert SpaceRun(r) <= 1 by {
        if |r| > 1 && IsSpace(r[0]) {
          assert !IsSpace(r[1]);
        }
      }
      assert SingleSpaced(r[1..]) by {
        forall k | 0 <= k < |r[1..]| - 1
          ensures !(IsSpace(r[1..][k]) && IsSpace(r[1..][k + 1]))
        {
          assert r[1..][k] == r[k + 1] && r[1..][k + 1] == r[k + 2];
        }
      }
      CollapseSingleSpacedFixed(r[1..]);
      assert r == [r[0]] + r[1..];
    }
  }

  /** Collapsing twice is collapsing once. */
  lemma CollapseIdempotent(s: string)
    ensures CollapseSpaces(CollapseSpaces(s)) == CollapseSpaces(s)
  {
    CollapseSingleSpaced(s);
    CollapseSingleSpacedFixed(CollapseSpaces(s));
  }

  lemma {:induction false} TrimStartRun(t: string)
    ensures TrimStart(t) == t[SpaceRun(t)..]
    decreases |t|
  {
    if |t| > 0 && IsSpace(t[0]) {
      TrimStartRun(t[1..]);
      assert t[1..][SpaceRun(t[1..])..] == t[SpaceRun(t)..];
    }
  }

  lemma TrimStartCollapse(t: string)
    ensures TrimStart(CollapseSpaces(t)) == CollapseSpaces(TrimStart(t))
  {
    TrimStartRun(t);
    var n := SpaceRun(t);
    AfterRun(t);
    var rest := CollapseSpaces(t[n..]);
    if n == |t| {
      assert t[n..] == [];
    }
    if |rest| > 0 {
      assert TrimStart(rest) == rest;
    }
    if n >= 2 {
      assert CollapseSpaces(t) == " " + rest;
      assert (" " + rest)[1..] == rest;
    } else if n == 1 {
      assert CollapseSpaces(t) == [t[0]] + rest;
      assert ([t[0]] + rest)[1..] == rest;
    }
  }

  lemma {:induction false} LeadingDigitsCollapse(v: string)
    ensures LeadingDigits(CollapseSpaces(v)) == LeadingDigits(v)
    decreases |v|
  {
    if |v| > 0 {
      CollapseHead(v);
      if IsDigit(v[0]) {
        LeadingDigitsCollapse(v[1..]);
        assert CollapseSpaces(v)[1..] == CollapseSpaces(v[1..]);
      } else if !IsSpace(v[0]) {
        assert CollapseSpaces(v)[0] == v[0];
      }
    }
  }

  lemma TrimStartTwice(t: string)
    ensures TrimStart(TrimStart(t)) == TrimStart(t)
  {
    TrimStartRun(t);
    TrimStartRun(TrimStart(t));
  }

  /** `parseInt` reads past leading white space. */
  lemma ParseIntTrimStart(t: string)
    ensures ParseInt(TrimStart(t)) == ParseInt(t)
  {
    TrimStartTwice(t);
  }

  /** Collapsing a string that starts with something other than white space keeps what `parseInt` reads. */
  lemma ParseIntCollapseStarted(u: string)
    requires |u| == 0 || !IsSpace(u[0])
    ensures ParseInt(CollapseSpaces(u)) == ParseInt(u)
  {
    var c := CollapseSpaces(u);
    if |u| > 0 {
      CollapseHead(u);
      assert TrimStart(c) == c && TrimStart(u) == u;
      assert c[0] == u[0] && c[1..] == CollapseSpaces(u[1..]);
      assert Unsigned(c) == CollapseSpaces(Unsigned(u));
      LeadingDigitsCollapse(Unsigned(u));
    }
  }

  /** Collapsing white space does not change what `parseInt` reads. */
  lemma ParseIntCollapse(t: string)
    ensures ParseInt(CollapseSpaces(t)) == ParseInt(t)
  {
    TrimStartCollapse(t);
    TrimStartRun(t);
    var u := TrimStart(t);
    ParseIntTrimStart(CollapseSpaces(t));
    ParseIntCollapseStarted(u);
    ParseIntTrimStart(t);
  }

  // ---------------------------------------------------------------------
  // Matching

  datatype Field = Equal | Lesser | Greater

  /** `parseInt(term, 10)` is truthy: a leading integer that is not zero. */
  predicate Numeric(term: string) {
    var p := ParseInt(term);
    p.Some? && p.value != 0
  }

  lemma NumericCollapse(term: string)
    ensures Numeric(CollapseSpaces(term)) == Numeric(term)
  {
    ParseIntCollapse(term);
  }

  /** The sub-terms of a text query: split on ">" if it has one, else on ",", else on " ". */
  function SubTerms(term: string): (r: seq<string>)
    ensures |r| >= 1
  {
    if Contains(term, ">") then Split(term, ">")
    else if Contains(term, ",") then Split(term, ",")
    else Split(term, " ")
  }

  /** A text query matches a name holding the whole term or one of its sub-terms. */
  predicate TextMatch(name: string, term: string) {
    Contains(name, term) || exists k :: 0 <= k < |SubTerms(term)| && Contains(name, SubTerms(term)[k])
  }

  /** The bound of a `lesser` or `greater` query: its digits read as a number, no digits reading as 0. */
  function Bound(term: string): nat {
    DigitsValue(DigitsOnly(term))
  }

  /** `+term` once the non-digits are gone is `Bound(term)`. */
  lemma BoundIsNumber(term: string)
    ensures ToNumber(DigitsOnly(term)) == Some(Bound(term) as int)
  {
    var d := DigitsOnly(term);
    if |d| > 0 {
      assert !IsSpace(d[0]) && !IsSpace(d[|d| - 1]);
      TrimPadded(d, "", "");
      assert "" + d + "" == d;
      assert !(d[0] == '-' || d[0] == '+');
    }
  }

  /** Whether tuple `r` answers a query. */
  predicate Matches(field: Field, term: string, r: Record<int>) {
    match field
    case Equal =>
      if Numeric(term) then ToNumber(term) == Some(r.size)
      else TextMatch(r.name, CollapseSpaces(term))
    case Lesser => r.size < Bound(term)
    case Greater => r.size > Bound(term)
  }

  /** `s.filter(f)` */
  function Keep(s: seq<Record<int>>, f: Record<int> -> bool): (r: seq<Record<int>>)
    ensures |r| <= |s|
  {
    if |s| == 0 then [] else (if f(s[0]) then [s[0]] else []) + Keep(s[1..], f)
  }

  lemma {:induction false} KeepMembers(s: seq<Record<int>>, f: Record<int> -> bool)
    ensures forall x :: x in Keep(s, f) <==> x in s && f(x)
    ensures |Keep(s, f)| == 0 <==> forall k :: 0 <= k < |s| ==> !f(s[k])
    decreases |s|
  {
    if |s| > 0 {
      KeepMembers(s[1..], f);
      assert s == [s[0]] + s[1..];
      if |Keep(s, f)| == 0 {
        forall k | 0 <= k < |s|
          ensures !f(s[k])
        {
          if k > 0 {
            assert s[k] == s[1..][k - 1];
          }
        }
      }
    }
  }

  lemma {:induction false} KeepSnoc(s: seq<Record<int>>, x: Record<int>, f: Record<int> -> bool)
    ensures Keep(s + [x], f) == Keep(s, f) + (if f(x) then [x] else [])
    decreases |s|
  {
    if |s| > 0 {
      assert (s + [x])[1..] == s[1..] + [x];
      KeepSnoc(s[1..], x, f);
    } else {
      assert Keep([x][1..], f) == [];
    }
  }

  /** The tuples answering a query, in list order (`tuples.filter`). */
  function Matching(rs: seq<Record<int>>, field: Field, term: string): (r: seq<Record<int>>)
    ensures |r| <= |rs|
  {
    Keep(rs, r => Matches(field, term, r))
  }

  lemma MatchingMembers(rs: seq<Record<int>>, field: Field, term: string)
    ensures forall x :: x in Matching(rs, field, term) <==> x in rs && Matches(field, term, x)
    ensures |Matching(rs, field, term)| == 0 <==> forall k :: 0 <= k < |rs| ==> !Matches(field, term, rs[k])
  {
    KeepMembers(rs, r => Matches(field, term, r));
  }

  lemma MatchingSnoc(rs: seq<Record<int>>, x: Record<int>, field: Field, term: string)
    ensures Matching(rs + [x], field, term) ==
      Matching(rs, field, term) + (if Matches(field, term, x) then [x] else [])
  {
    KeepSnoc(rs, x, r => Matches(field, term, r));
  }

  /** The term the query stores: `lesser`/`greater` keep only digits; `equal` is collapsed once any tuple took the text path. */
  function StoredTerm(field: Field, term: string, count: nat): string {
    match field
    case Equal => if count > 0 && !Numeric(term) then CollapseSpaces(term) else term
    case Lesser => DigitsOnly(term)
    case Greater => DigitsOnly(term)
  }

  /** The query fields after a search: the searched field holds the term, the other two are cleared. */
  datatype Query = Query(equal: string, lesser: string, greater: string)

  function Fields(field: Field, stored: string): (q: Query)
    ensures field == Equal ==> q == Query(stored, "", "")
    ensures field == Lesser ==> q == Query("", stored, "")
    ensures field == Greater ==> q == Query("", "", stored)
  {
    match field
    case Equal => Query(stored, "", "")
    case Lesser => Query("", stored, "")
    case Greater => Query("", "", stored)
  }

  // ---------------------------------------------------------------------
  // The `equal` filter as the source runs it

  /** The `for` loop over the sub-terms. */
  method AnyTermIn(name: string, terms: seq<string>) returns (found: bool)
    ensures found <==> exists k :: 0 <= k < |terms| && Contains(name, terms[k])
  {
    var i := 0;
    while i < |terms|
      invariant 0 <= i <= |terms|
      invariant forall k :: 0 <= k < i ==> !Contains(name, terms[k])
    {
      if IndexOf(name, terms[i]) != -1 {
        return true;
      }
      i := i + 1;
    }
    return false;
  }

  /**
   * One call of the `equal` filter callback: a numeric term compares the
   * size with the whole term read as a number; otherwise the term is
   * overwritten with its collapsed form and searched in the name, then each
   * of its sub-terms.
   */
  method TestOne(term: string, o: Record<int>) returns (keep: bool, term': string)
    ensures keep == Matches(Equal, term, o)
    ensures term' == if Numeric(term) then term else CollapseSpaces(term)
  {
    term' := term;
    if Numeric(term) {
      keep := ToNumber(term) == Some(o.size);
    } else {
      term' := CollapseSpaces(term);
      CollapseIdempotent(term);
      NumericCollapse(term);
      keep := IndexOf(o.name, term') != -1;
      if !keep {
        keep := AnyTermIn(o.name, SubTerms(term'));
      }
    }
  }

  /** A text term matches as its collapsed form does, and collapsing it again changes nothing. */
  lemma MatchesCollapsed(term: string, o: Record<int>)
    requires !Numeric(term)
    ensures Matches(Equal, CollapseSpaces(term), o) == Matches(Equal, term, o)
    ensures Numeric(CollapseSpaces(term)) == Numeric(term)
    ensures CollapseSpaces(CollapseSpaces(term)) == CollapseSpaces(term)
  {
    CollapseIdempotent(term);
    NumericCollapse(term);
  }

  /**
   * The `equal` filter as written: the callback re-tests `parseInt` on the
   * current term for every tuple and, on the text path, overwrites the term
   * with its collapsed form. It keeps the tuples `Matching` keeps, and
   * leaves the term `StoredTerm` describes.
   */
  method EqualFilter(rs: seq<Record<int>>, term0: string) returns (kept: seq<Record<int>>, term: string)
    ensures kept == Matching(rs, Equal, term0)
    ensures term == StoredTerm(Equal, term0, |rs|)
  {
    term := term0;
    kept := [];
    var i := 0;
    while i < |rs|
      invariant 0 <= i <= |rs|
      invariant term == StoredTerm(Equal, term0, i)
      invariant kept == Matching(rs[..i], Equal, term0)
    {
      var o := rs[i];
      if !Numeric(term0) {
        MatchesCollapsed(term0, o);
      }
      var keep;
      keep, term := TestOne(term, o);
      MatchingSnoc(rs[..i], o, Equal, term0);
      assert rs[..i + 1] == rs[..i] + [o];
      if keep {
        kept := kept + [o];
      }
      i := i + 1;
    }
    assert rs[..|rs|] == rs;
  }

  // ---------------------------------------------------------------------
  // Descending numeric sort

  predicate Descending(s: seq<Record<int>>) {
    forall j, k :: 0 <= j < k < |s| ==> s[j].size >= s[k].size
  }

  /** The tuples of size `v`, in order: a stable sort keeps each of these sub-sequences as it was. */
  function OfSize(s: seq<Record<int>>, v: int): seq<Record<int>> {
    if |s| == 0 then [] else (if s[0].size == v then [s[0]] else []) + OfSize(s[1..], v)
  }

  lemma {:induction false} OfSizeAppend(a: seq<Record<int>>, b: seq<Record<int>>, v: int)
    ensures OfSize(a + b, v) == OfSize(a, v) + OfSize(b, v)
    decreases |a|
  {
    if |a| == 0 {
      assert a + b == b;
    } else {
      var h := if a[0].size == v then [a[0]] else [];
      assert (a + b)[0] == a[0];
      assert (a + b)[1..] == a[1..] + b;
      assert OfSize(a + b, v) == h + OfSize(a[1..] + b, v);
      OfSizeAppend(a[1..], b, v);
      assert OfSize(a, v) == h + OfSize(a[1..], v);
    }
  }

  lemma {:induction false} OfSizeFound(s: seq<Record<int>>, v: int)
    requires |OfSize(s, v)| > 0
    ensures exists k :: 0 <= k < |s| && s[k].size == v
    decreases |s|
  {
    if s[0].size != v {
      OfSizeFound(s[1..], v);
      var k :| 0 <= k < |s[1..]| && s[1..][k].size == v;
      assert s[k + 1].size == v;
    }
  }

  /** `x` goes after every tuple at least as large, so equal sizes keep their order. */
  function Insert(s: seq<Record<int>>, x: Record<int>): (r: seq<Record<int>>)
    ensures |r| == |s| + 1
  {
    if |s| == 0 then [x]
    else if s[0].size < x.size then [x] + s
    else [s[0]] + Insert(s[1..], x)
  }

  lemma {:induction false} InsertMultiset(s: seq<Record<int>>, x: Record<int>)
    ensures multiset(Insert(s, x)) == multiset(s) + multiset{x}
    decreases |s|
  {
    if |s| > 0 && s[0].size >= x.size {
      InsertMultiset(s[1..], x);
      assert s == [s[0]] + s[1..];
    }
  }

  /** Every tuple of `Insert(s, x)` is `x` or comes from `s`. */
  lemma {:induction false} InsertFrom(s: seq<Record<int>>, x: Record<int>)
    ensures forall k :: 0 <= k < |s| + 1 ==> Insert(s, x)[k] == x || Insert(s, x)[k] in s
    decreases |s|
  {
    if |s| > 0 && s[0].size >= x.size {
      InsertFrom(s[1..], x);
      forall k | 1 <= k < |s| + 1
        ensures Insert(s, x)[k] == x || Insert(s, x)[k] in s
      {
        assert Insert(s, x)[k] == Insert(s[1..], x)[k - 1];
      }
    }
  }

  lemma {:induction false} InsertDescending(s: seq<Record<int>>, x: Record<int>)
    requires Descending(s)
    ensures Descending(Insert(s, x))
    decreases |s|
  {
    if |s| > 0 && s[0].size >= x.size {
      InsertDescending(s[1..], x);
      InsertFrom(s[1..], x);
      var r := Insert(s, x);
      forall j, k | 0 <= j < k < |r|
        ensures r[j].size >= r[k].size
      {
        if j > 0 {
          assert r[j] == Insert(s[1..], x)[j - 1] && r[k] == Insert(s[1..], x)[k - 1];
        } else {
          assert r[k] == Insert(s[1..], x)[k - 1];
        }
      }
    }
  }

  /** No tuple has size `v`: there is nothing of size `v`. */
  lemma {:induction false} OfSizeNone(s: seq<Record<int>>, v: int)
    requires forall k :: 0 <= k < |s| ==> s[k].size != v
    ensures OfSize(s, v) == []
    decreases |s|
  {
    if |s| > 0 {
      OfSizeNone(s[1..], v);
    }
  }

  lemma {:induction false} InsertOfSize(s: seq<Record<int>>, x: Record<int>, v: int)
    requires Descending(s)
    ensures OfSize(Insert(s, x), v) == OfSize(s, v) + (if x.size == v then [x] else [])
    decreases |s|
  {
    if |s| == 0 {
    } else if s[0].size < x.size {
      assert Insert(s, x)[1..] == s;
      if x.size == v {
        OfSizeNone(s, v);
      }
    } else {
      InsertOfSize(s[1..], x, v);
      assert Insert(s, x)[1..] == Insert(s[1..], x);
    }
  }

  /** Both lists hold the same tuples of every size, in the same order. */
  ghost predicate SameRuns(a: seq<Record<int>>, b: seq<Record<int>>) {
    forall v :: OfSize(a, v) == OfSize(b, v)
  }

  lemma SortStep(r: seq<Record<int>>, xs: seq<Record<int>>, i: nat)
    requires i < |xs| && Descending(r) && SameRuns(r, xs[..i])
    ensures SameRuns(Insert(r, xs[i]), xs[..i + 1])
  {
    assert xs[..i + 1] == xs[..i] + [xs[i]];
    forall v
      ensures OfSize(Insert(r, xs[i]), v) == OfSize(xs[..i + 1], v)
    {
      InsertOfSize(r, xs[i], v);
      OfSizeAppend(xs[..i], [xs[i]], v);
    }
  }

  /**
   * `__numericSortDescending`: `Array.prototype.sort` with a comparator
   * that puts larger sizes first, which is stable; the model inserts the
   * tuples one by one. The result is descending, a permutation of the
   * input, and keeps tuples of equal size in input order.
   */
  method SortDescending(xs: seq<Record<int>>) returns (r: seq<Record<int>>)
    ensures Descending(r)
    ensures multiset(r) == multiset(xs)
    ensures forall v :: OfSize(r, v) == OfSize(xs, v)
  {
    r := [];
    var i := 0;
    while i < |xs|
      invariant 0 <= i <= |xs|
      invariant Descending(r)
      invariant multiset(r) == multiset(xs[..i])
      invariant SameRuns(r, xs[..i])
    {
      InsertDescending(r, xs[i]);
      InsertMultiset(r, xs[i]);
      SortStep(r, xs, i);
      assert xs[..i + 1] == xs[..i] + [xs[i]];
      r := Insert(r, xs[i]);
      i := i + 1;
    }
    assert xs[..|xs|] == xs;
  }

  /**
   * There is only one stable descending order: two descending lists with
   * the same tuples of every size, in the same order, are equal. So any
   * stable sort of the matches gives what `SortDescending` gives.
   */
  lemma {:induction false} StableOrderUnique(a: seq<Record<int>>, b: seq<Record<int>>)
    requires Descending(a) && Descending(b)
    requires forall v :: OfSize(a, v) == OfSize(b, v)
    ensures a == b
    decreases |a|
  {
    OfSizeHead(a);
    OfSizeHead(b);
    var va := if |a| > 0 then a[0].size else 0;
    var vb := if |b| > 0 then b[0].size else 0;
    assert OfSize(a, va) == OfSize(b, va);
    assert OfSize(a, vb) == OfSize(b, vb);
    if |a| > 0 && |b| > 0 {
      var m, n := a[0].size, b[0].size;
      assert |OfSize(a, n)| > 0 by {
        assert OfSize(a, n) == OfSize(b, n);
      }
      OfSizeFound(a, n);
      assert |OfSize(b, m)| > 0 by {
        assert OfSize(a, m) == OfSize(b, m);
      }
      OfSizeFound(b, m);
      assert m == n;
      assert OfSize(a, m)[0] == a[0] && OfSize(b, m)[0] == b[0];
      forall v
        ensures OfSize(a[1..], v) == OfSize(b[1..], v)
      {
        var head := if m == v then [a[0]] else [];
        assert OfSize(a, v) == head + OfSize(a[1..], v);
        assert OfSize(b, v) == head + OfSize(b[1..], v);
        assert (head + OfSize(a[1..], v))[|head|..] == OfSize(a[1..], v);
        assert (head + OfSize(b[1..], v))[|head|..] == OfSize(b[1..], v);
      }
      StableOrderUnique(a[1..], b[1..]);
      assert a == [a[0]] + a[1..] && b == [b[0]] + b[1..];
    }
  }

  lemma OfSizeHead(s: seq<Record<int>>)
    ensures |s| > 0 ==> |OfSize(s, s[0].size)| > 0
    ensures forall v :: |s| == 0 ==> OfSize(s, v) == []
  {
  }

  // ---------------------------------------------------------------------
  // The answer

  /** What a search shows: the sentinel, the whole tree, or the ranked matches. */
  datatype Outcome<T> = NoMatch | WholeTree(tree: T) | Ranked(records: seq<Record<int>>)

  const NoMatchMessage: string := "No matching tuples!"

  /**
   * `search`: filter, then the sentinel when nothing matched, the whole tree
   * when the stored term is empty, and the matches by descending size
   * otherwise; the searched field stores the term and the others are cleared.
   */
  method Run<T>(rs: seq<Record<int>>, tree: T, field: Field, term: string) returns (q: Query, outcome: Outcome<T>)
    ensures q == Fields(field, StoredTerm(field, term, |rs|))
    ensures outcome.NoMatch? <==> forall k :: 0 <= k < |rs| ==> !Matches(field, term, rs[k])
    ensures outcome.WholeTree? <==>
      (exists k :: 0 <= k < |rs| && Matches(field, term, rs[k])) && StoredTerm(field, term, |rs|) == ""
    ensures outcome.WholeTree? ==> outcome.tree == tree
    ensures outcome.Ranked? ==>
      && Descending(outcome.records)
      && multiset(outcome.records) == multiset(Matching(rs, field, term))
      && forall v :: OfSize(outcome.records, v) == OfSize(Matching(rs, field, term), v)
  {
    var matches: seq<Record<int>>;
    var stored: string;
    if field == Equal {
      matches, stored := EqualFilter(rs, term);
    } else {
      stored := DigitsOnly(term);
      BoundIsNumber(term);
      matches := Matching(rs, field, term);
    }
    MatchingMembers(rs, field, term);
    q := Fields(field, stored);
    if |matches| < 1 {
      outcome := NoMatch;
    } else if stored == "" {
      outcome := WholeTree(tree);
    } else {
      var sorted := SortDescending(matches);
      outcome := Ranked(sorted);
    }
  }

  // ---------------------------------------------------------------------
  // Consequences

  /** An empty `equal` term matches every tuple and is stored empty: a non-empty list shows the whole tree. */
  lemma EmptyEqualShowsTree(rs: seq<Record<int>>)
    ensures forall k :: 0 <= k < |rs| ==> Matches(Equal, "", rs[k])
    ensures StoredTerm(Equal, "", |rs|) == ""
  {
    assert ParseInt("") == None;
    forall k | 0 <= k < |rs|
      ensures Matches(Equal, "", rs[k])
    {
      assert OccursAt(rs[k].name, "", 0);
    }
  }

  /**
   * A `lesser` term without digits reads as 0, so over sizes that are never
   * negative nothing matches and the sentinel is shown, although the term
   * is empty.
   */
  lemma EmptyLesserShowsSentinel(rs: seq<Record<int>>, term: string)
    requires DigitsOnly(term) == ""
    requires forall k :: 0 <= k < |rs| ==> rs[k].size >= 0
    ensures forall k :: 0 <= k < |rs| ==> !Matches(Lesser, term, rs[k])
    ensures StoredTerm(Lesser, term, |rs|) == ""
  {
  }

  /** A numeric `equal` term is compared as a whole number: trailing text makes it match nothing. */
  lemma NumericTermWhole(r: Record<int>)
    ensures Numeric("12abc") && !Matches(Equal, "12abc", r)
    ensures Matches(Equal, "12", r) <==> r.size == 12
  {
    assert LeadingDigits("12abc") == "12" by {
      assert "12abc"[1..] == "2abc" && "2abc"[1..] == "abc";
    }
    assert DigitsValue("12") == 12;
    assert "12"[..1] == "1";
    assert !AllDigits("12abc") by {
      assert !IsDigit("12abc"[2]);
    }
    assert LeadingDigits("12") == "12" by {
      assert "12"[1..] == "2" && "2"[1..] == "";
    }
  }

  /** A text term with a trailing separator has an empty sub-term, and so matches every tuple: "a," matches any name. */
  lemma TrailingCommaMatchesAll(r: Record<int>)
    ensures SubTerms("a,") == ["a", ""]
    ensures Matches(Equal, "a,", r)
  {
    var t := "a,";
    assert ParseInt(t) == None by {
      assert TrimStart(t) == t by { assert !IsSpace(t[0]); }
      assert Unsigned(t) == t;
      assert LeadingDigits(t) == "" by { assert !IsDigit(t[0]); }
    }
    assert CollapseSpaces(t) == t by {
      CollapseSingleSpacedFixed(t);
    }
    assert !Contains(t, ">") by {
      SingleCharOccurs(t, '>');
    }
    assert OccursAt(t, ",", 1) && !OccursAt(t, ",", 0);
    assert IndexOf(t, ",") == 1;
    assert Split(t[2..], ",") == [""];
    assert Split(t, ",") == [t[..1]] + Split(t[2..], ",");
    assert t[..1] == "a";
    assert SubTerms(t) == ["a", ""];
    assert OccursAt(r.name, SubTerms(t)[1], 0);
    assert Contains(r.name, SubTerms(t)[1]);
    assert TextMatch(r.name, CollapseSpaces(t));
  }
}
