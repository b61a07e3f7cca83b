/**
 * Tuples as the pipeline passes them around, and the way they are stored in
 * the key-value table: each tuple is one string `name***size` under the id
 * "0", "1", ..., written in batches of at most 25, and split on "***" when
 * read back.
 */
module Tuples {
  import opened Options
  import opened Strings

  /** A tuple: the " > "-chained category name and its image count. */
  datatype Record<S> = Record(name: string, size: S)

  const Separator: string := "***"

  /** `item.name + "***" + item.size`, the stored form of a tuple whose parts are already strings. */
  function Encode(t: Record<string>): string {
    t.name + Separator + t.size
  }

  /** A tuple read back from the table; the size is `undefined` when the string holds no separator. */
  datatype Decoded = Decoded(name: string, size: Option<string>)

  /** `tuple.split("***")` followed by `{name: item[0], size: item[1]}`. */
  function DecodeAsWritten(s: string): (d: Decoded)
    ensures d.size.None? <==> !Contains(s, Separator)
  {
    var item := Split(s, Separator);
    Decoded(item[0], if |item| > 1 then Some(item[1]) else None)
  }

  /** The last position at or before `k` where `pat` occurs in `s`, or -1. */
  function LastOccurrence(s: string, pat: string, k: int): (r: int)
    ensures r == -1 || (r <= k && OccursAt(s, pat, r))
    ensures forall j :: r < j <= k ==> !OccursAt(s, pat, j)
    decreases k + 1
  {
    if k < 0 then -1
    else if OccursAt(s, pat, k) then k
    else LastOccurrence(s, pat, k - 1)
  }

  /** Splitting at the last separator instead of the first. */
  function Decode(s: string): (d: Decoded)
    ensures d.size.None? <==> !Contains(s, Separator)
  {
    var k := LastOccurrence(s, Separator, |s|);
    LastOccurrenceFound(s, Separator);
    if k < 0 then Decoded(s, None) else Decoded(s[..k], Some(s[k + |Separator|..]))
  }

  /** The last occurrence exists exactly when there is a first one. */
  lemma LastOccurrenceFound(s: string, pat: string)
    ensures LastOccurrence(s, pat, |s|) >= 0 <==> Contains(s, pat)
  {
    if Contains(s, pat) {
      assert OccursAt(s, pat, IndexOf(s, pat));
    }
    if LastOccurrence(s, pat, |s|) >= 0 {
      assert IndexFrom(s, pat, 0) != -1;
    }
  }

  /** `__assembleTuplesFromDynamoDB` as written. */
  function AssembleAsWritten(stored: seq<string>): (r: seq<Decoded>)
    ensures |r| == |stored|
    ensures forall k :: 0 <= k < |stored| ==> r[k] == DecodeAsWritten(stored[k])
  {
    seq(|stored|, k requires 0 <= k < |stored| => DecodeAsWritten(stored[k]))
  }

  /** `__assembleTuplesFromDynamoDB` with the corrected decoder. */
  function Assemble(stored: seq<string>): (r: seq<Decoded>)
    ensures |r| == |stored|
    ensures forall k :: 0 <= k < |stored| ==> r[k] == Decode(stored[k])
  {
    seq(|stored|, k requires 0 <= k < |stored| => Decode(stored[k]))
  }

  // ---------------------------------------------------------------------
  // Round trips

  /** A window that lies inside the name is the name's window. */
  lemma WindowInName(name: string, rest: string, j: nat)
    requires j + 3 <= |name| && !OccursAt(name, Separator, j)
    ensures !OccursAt(name + rest, Separator, j)
  {
    assert (name + rest)[j..j + 3] == name[j..j + 3];
  }

  /** A window that straddles the end of a name not ending in '*' holds that last character. */
  lemma WindowAtNameEnd(name: string, rest: string, j: nat)
    requires j < |name| < j + 3 && name[|name| - 1] != '*'
    ensures !OccursAt(name + rest, Separator, j)
  {
    var s := name + rest;
    if j + 3 <= |s| {
      assert s[j..j + 3][|name| - 1 - j] == name[|name| - 1];
    }
  }

  /** The first occurrence is the one with none before it. */
  lemma FirstOccurrenceIs(s: string, pat: string, n: nat)
    requires OccursAt(s, pat, n) && forall j :: 0 <= j < n ==> !OccursAt(s, pat, j)
    ensures IndexOf(s, pat) == n
  {
  }

  /** No separator starts inside a name that holds none and does not end in '*'. */
  lemma NoSeparatorInName(name: string, rest: string)
    requires !Contains(name, Separator) && (|name| == 0 || name[|name| - 1] != '*')
    ensures forall j :: 0 <= j < |name| ==> !OccursAt(name + rest, Separator, j)
  {
    forall j | 0 <= j < |name|
      ensures !OccursAt(name + rest, Separator, j)
    {
      if j + 3 <= |name| {
        WindowInName(name, rest, j);
      } else {
        WindowAtNameEnd(name, rest, j);
      }
    }
  }

  /** In `name***size`, the first separator is the one written between the parts when the name allows it. */
  lemma FirstSeparator(t: Record<string>)
    requires !Contains(t.name, Separator) && !HasSuffix(t.name, "*")
    ensures IndexOf(Encode(t), Separator) == |t.name|
  {
    var n := |t.name|;
    var rest := Separator + t.size;
    if n > 0 {
      assert t.name[n - 1..] == [t.name[n - 1]];
    }
    NoSeparatorInName(t.name, rest);
    assert Encode(t) == t.name + rest;
    FirstOccurrenceIs(t.name + rest, Separator, n);
  }

  /**
   * The stored form reads back as written when the name holds no separator
   * and does not end in '*', and the size holds no separator.
   */
  lemma RoundTripAsWritten(t: Record<string>)
    requires !Contains(t.name, Separator) && !HasSuffix(t.name, "*") && !Contains(t.size, Separator)
    ensures DecodeAsWritten(Encode(t)) == Decoded(t.name, Some(t.size))
  {
    var s := Encode(t);
    FirstSeparator(t);
    assert s[..|t.name|] == t.name;
    assert s[|t.name| + 3..] == t.size;
    assert Split(s, Separator) == [t.name] + Split(t.size, Separator);
  }

  /** A name ending in '*' loses its stars to the size: ("a*", "5") is stored as "a****5" and read back as ("a", "*5"). */
  lemma StarNameBreaksAsWritten()
    ensures Encode(Record("a*", "5")) == "a****5"
    ensures DecodeAsWritten(Encode(Record("a*", "5"))) == Decoded("a", Some("*5"))
  {
    var s := "a****5";
    assert Encode(Record("a*", "5")) == s;
    assert s[0..3] != Separator by {
      assert s[0..3][0] == 'a';
    }
    assert OccursAt(s, Separator, 1);
    assert IndexOf(s, Separator) == 1;
    var rest := s[4..];
    assert rest == "*5";
    assert !OccursAt(rest, Separator, 0);
    assert IndexOf(rest, Separator) == -1;
    assert Split(s, Separator) == [s[..1]] + Split(rest, Separator);
    assert s[..1] == "a";
  }

  /** With the corrected decoder every name comes back, whatever it holds, as long as the size has no '*'. */
  lemma RoundTrip(t: Record<string>)
    requires '*' !in t.size
    ensures Decode(Encode(t)) == Decoded(t.name, Some(t.size))
  {
    var s := Encode(t);
    var n := |t.name|;
    assert OccursAt(s, Separator, n);
    forall j | n < j <= |s|
      ensures !OccursAt(s, Separator, j)
    {
      if j + 3 <= |s| {
        assert s[j + 2] == t.size[j + 2 - n - 3];
        assert s[j..j + 3][2] == s[j + 2] != '*';
      }
    }
    var k := LastOccurrence(s, Separator, |s|);
    assert k == n;
    assert s[..n] == t.name;
    assert s[n + 3..] == t.size;
  }

  /** The strings a list of tuples is stored as, one per tuple. */
  function Stored(ts: seq<Record<string>>): (r: seq<string>)
    ensures |r| == |ts| && forall k :: 0 <= k < |ts| ==> r[k] == Encode(ts[k])
  {
    seq(|ts|, k requires 0 <= k < |ts| => Encode(ts[k]))
  }

  /** Read back as written, a stored list comes back whole when no name holds "***" or ends in '*' and no size holds "***". */
  lemma AssembleAsWrittenRoundTrip(ts: seq<Record<string>>)
    requires forall k :: 0 <= k < |ts| ==>
      !Contains(ts[k].name, Separator) && !HasSuffix(ts[k].name, "*") && !Contains(ts[k].size, Separator)
    ensures var r := AssembleAsWritten(Stored(ts));
      |r| == |ts| && forall k :: 0 <= k < |ts| ==> r[k] == Decoded(ts[k].name, Some(ts[k].size))
  {
    forall k | 0 <= k < |ts|
      ensures AssembleAsWritten(Stored(ts))[k] == Decoded(ts[k].name, Some(ts[k].size))
    {
      RoundTripAsWritten(ts[k]);
    }
  }

  /** A stored list holding the tuple ("a*", "5") comes back changed as written, and whole with the corrected decoder. */
  lemma AssembleStarName()
    ensures AssembleAsWritten(Stored([Record("a*", "5")])) == [Decoded("a", Some("*5"))]
    ensures Assemble(Stored([Record("a*", "5")])) == [Decoded("a*", Some("5"))]
  {
    StarNameBreaksAsWritten();
    RoundTrip(Record("a*", "5"));
  }

  /** With the corrected decoder every stored list comes back whole, given sizes without '*'. */
  lemma AssembleRoundTrip(ts: seq<Record<string>>)
    requires forall k :: 0 <= k < |ts| ==> '*' !in ts[k].size
    ensures var r := Assemble(Stored(ts));
      |r| == |ts| && forall k :: 0 <= k < |ts| ==> r[k] == Decoded(ts[k].name, Some(ts[k].size))
  {
    forall k | 0 <= k < |ts|
      ensures Assemble(Stored(ts))[k] == Decoded(ts[k].name, Some(ts[k].size))
    {
      RoundTrip(ts[k]);
    }
  }

  // ---------------------------------------------------------------------
  // Batches

  /** One put request: the tuple's index as its id and its stored form. */
  datatype PutRequest = PutRequest(id: string, tuple: string)

  const BatchLimit: nat := 25

  /** The request that stores tuple `i`. */
  function Put(tuples: seq<Record<string>>, i: nat): PutRequest
    requires i < |tuples|
  {
    PutRequest(Dec(i), Encode(tuples[i]))
  }

  /** `save(startIndex)`: the requests for tuples `startIndex` up to 25 further, stopping at the end of the list. */
  method SaveBatch(tuples: seq<Record<string>>, start: nat) returns (puts: seq<PutRequest>)
    ensures |puts| == if start >= |tuples| then 0 else if |tuples| - start < BatchLimit then |tuples| - start else BatchLimit
    ensures forall k :: 0 <= k < |puts| ==> start + k < |tuples| && puts[k] == Put(tuples, start + k)
  {
    puts := [];
    var i := start;
    while i < start + BatchLimit
      invariant start <= i <= start + BatchLimit
      invariant |puts| == i - start && (i <= |tuples| || (start >= |tuples| && |puts| == 0))
      invariant forall k :: 0 <= k < |puts| ==> start + k < |tuples| && puts[k] == Put(tuples, start + k)
    {
      if i >= |tuples| {
        break;
      }
      puts := puts + [Put(tuples, i)];
      i := i + 1;
    }
  }

  /** The length of batch `b` of a list of `n` tuples: what remains from `25 * b`, at most 25. */
  function BatchSize(n: nat, b: nat): nat
    requires 25 * b < n
  {
    if n - BatchLimit * b < BatchLimit then n - BatchLimit * b else BatchLimit
  }

  /** Tuple `i` sits in the batch starting at `25 * (i / 25)`, at offset `i % 25`. */
  lemma BatchOf(i: nat)
    ensures var b := i / BatchLimit;
      BatchLimit * b <= i < BatchLimit * b + BatchLimit && i % BatchLimit == i - BatchLimit * b
  {
  }

  /** `c` batches are the right number when the last one starts below `n` and together they reach `n`. */
  lemma BatchCount(n: nat, c: nat)
    requires 0 < c && BatchLimit * (c - 1) < n <= BatchLimit * c
    ensures c == (n + BatchLimit - 1) / BatchLimit
  {
  }

  /** The `save(i)` calls for i = 0, 25, 50, ... below the length. */
  method SaveEach(tuples: seq<Record<string>>) returns (batches: seq<seq<PutRequest>>)
    ensures BatchLimit * |batches| >= |tuples| && (|batches| == 0 || BatchLimit * (|batches| - 1) < |tuples|)
    ensures forall b :: 0 <= b < |batches| ==> BatchLimit * b < |tuples| && |batches[b]| == BatchSize(|tuples|, b)
    ensures forall b, k :: 0 <= b < |batches| && 0 <= k < |batches[b]| ==>
      BatchLimit * b + k < |tuples| && batches[b][k] == Put(tuples, BatchLimit * b + k)
  {
    batches := [];
    var i := 0;
    while i < |tuples|
      invariant i == 25 * |batches| && (|batches| == 0 || 25 * (|batches| - 1) < |tuples|)
      invariant forall b :: 0 <= b < |batches| ==> 25 * b < |tuples| && |batches[b]| == BatchSize(|tuples|, b)
      invariant forall b, k :: 0 <= b < |batches| && 0 <= k < |batches[b]| ==>
        25 * b + k < |tuples| && batches[b][k] == Put(tuples, 25 * b + k)
    {
      var puts := SaveBatch(tuples, i);
      AppendBatch(tuples, batches, puts);
      batches := batches + [puts];
      i := i + 25;
    }
  }

  /** Appending the batch that starts at `25 * |batches|` keeps every batch's requests in place. */
  lemma AppendBatch(tuples: seq<Record<string>>, batches: seq<seq<PutRequest>>, puts: seq<PutRequest>)
    requires 25 * |batches| < |tuples|
    requires |puts| == BatchSize(|tuples|, |batches|)
    requires forall k :: 0 <= k < |puts| ==> 25 * |batches| + k < |tuples| && puts[k] == Put(tuples, 25 * |batches| + k)
    requires forall b :: 0 <= b < |batches| ==> 25 * b < |tuples| && |batches[b]| == BatchSize(|tuples|, b)
    requires forall b, k :: 0 <= b < |batches| && 0 <= k < |batches[b]| ==>
      25 * b + k < |tuples| && batches[b][k] == Put(tuples, 25 * b + k)
    ensures var next := batches + [puts];
      && (forall b :: 0 <= b < |next| ==> 25 * b < |tuples| && |next[b]| == BatchSize(|tuples|, b))
      && (forall b, k :: 0 <= b < |next| && 0 <= k < |next[b]| ==>
        25 * b + k < |tuples| && next[b][k] == Put(tuples, 25 * b + k))
  {
    var next := batches + [puts];
    forall b, k | 0 <= b < |next| && 0 <= k < |next[b]|
      ensures 25 * b + k < |tuples| && next[b][k] == Put(tuples, 25 * b + k)
    {
      if b < |batches| {
        assert next[b] == batches[b];
      } else {
        assert next[b] == puts;
      }
    }
  }

  /**
   * The batches `__saveToDynamoDB` writes: one `save(0)` for up to 25 tuples,
   * otherwise `save(i)` for i = 0, 25, 50, ... below the length. Tuple `i`
   * lands in batch `i / 25` at position `i % 25`, and nothing else is written.
   */
  method Batches(tuples: seq<Record<string>>) returns (batches: seq<seq<PutRequest>>)
    ensures |batches| == if |tuples| == 0 then 1 else (|tuples| + BatchLimit - 1) / BatchLimit
    ensures forall b :: 0 <= b < |batches| ==> |batches[b]| <= BatchLimit
    ensures forall b, k :: 0 <= b < |batches| && 0 <= k < |batches[b]| ==>
      BatchLimit * b + k < |tuples| && batches[b][k] == Put(tuples, BatchLimit * b + k)
    ensures forall i :: 0 <= i < |tuples| ==>
      i / BatchLimit < |batches| && i % BatchLimit < |batches[i / BatchLimit]|
  {
    var n := |tuples|;
    if n > BatchLimit {
      batches := SaveEach(tuples);
      BatchCount(n, |batches|);
    } else {
      var puts := SaveBatch(tuples, 0);
      batches := [puts];
      if n > 0 {
        BatchCount(n, 1);
      }
    }
    BatchesCover(n, batches);
  }

  /** Batches of the sizes `BatchSize` gives, enough of them to reach `n`, hold position `i % 25` of batch `i / 25` for every `i < n`. */
  lemma BatchesCover(n: nat, batches: seq<seq<PutRequest>>)
    requires n > 0 ==> |batches| == (n + BatchLimit - 1) / BatchLimit
    requires forall b :: 0 <= b < |batches| && BatchLimit * b < n ==> |batches[b]| == BatchSize(n, b)
    ensures forall i :: 0 <= i < n ==> i / BatchLimit < |batches| && i % BatchLimit < |batches[i / BatchLimit]|
  {
    forall i | 0 <= i < n
      ensures i / BatchLimit < |batches| && i % BatchLimit < |batches[i / BatchLimit]|
    {
      BatchOf(i);
    }
  }
}
