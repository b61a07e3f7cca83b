/** Optional values. Where a JavaScript value may be `undefined`, the model uses `None`. */
module Options {
  datatype Option<T> = None | Some(value: T)
}

/**
 * The JavaScript string primitives the pipeline relies on, over `seq<char>`:
 * `indexOf`, `split`, `join`, `trim`, `substring`, `replace` with a string
 * pattern, and the digit handling behind `parseInt` and `"" + n`. White space
 * is the ASCII subset of what JavaScript's `trim` and `\s` accept.
 */
module Strings {
  import opened Options

  predicate IsSpace(c: char) {
    c == ' ' || c == '\t' || c == '\n' || c == '\r' || c == '\U{000B}' || c == '\U{000C}'
  }

  predicate IsDigit(c: char) {
    '0' <= c <= '9'
  }

  predicate AllDigits(s: string) {
    forall k :: 0 <= k < |s| ==> IsDigit(s[k])
  }

  predicate HasPrefix(s: string, p: string) {
    |p| <= |s| && s[..|p|] == p
  }

  predicate HasSuffix(s: string, p: string) {
    |p| <= |s| && s[|s| - |p|..] == p
  }

  /** `pat` occurs in `s` starting at index `k`. */
  predicate OccursAt(s: string, pat: string, k: int) {
    0 <= k && k + |pat| <= |s| && s[k..k + |pat|] == pat
  }

  /** The first occurrence of `pat` in `s` at or after `k`, or -1 (`String.prototype.indexOf`). */
  function IndexFrom(s: string, pat: string, k: nat): (r: int)
    ensures r == -1 || (k <= r && OccursAt(s, pat, r))
    ensures r == -1 ==> forall j :: k <= j ==> !OccursAt(s, pat, j)
    ensures r != -1 ==> forall j :: k <= j < r ==> !OccursAt(s, pat, j)
    decreases |s| - k
  {
    if k + |pat| > |s| then -1
    else if s[k..k + |pat|] == pat then k
    else IndexFrom(s, pat, k + 1)
  }

  function IndexOf(s: string, pat: string): int {
    IndexFrom(s, pat, 0)
  }

  /** `s.indexOf(pat) !== -1` */
  predicate Contains(s: string, pat: string) {
    IndexOf(s, pat) != -1
  }

  /** The last index of character `c` in `s`, or -1. */
  function LastIndex(s: string, c: char): (r: int)
    ensures -1 <= r < |s|
    ensures r == -1 <==> c !in s
    ensures r >= 0 ==> s[r] == c && c !in s[r + 1..]
  {
    if |s| == 0 then -1
    else if s[|s| - 1] == c then |s| - 1
    else LastIndex(s[..|s| - 1], c)
  }

  /** `s.split(sep)` for a non-empty separator. */
  function Split(s: string, sep: string): (parts: seq<string>)
    requires |sep| > 0
    ensures |parts| >= 1
    decreases |s|
  {
    var k := IndexOf(s, sep);
    if k < 0 then [s] else [s[..k]] + Split(s[k + |sep|..], sep)
  }

  /** `parts.join(sep)` */
  function Join(parts: seq<string>, sep: string): string {
    if |parts| == 0 then ""
    else if |parts| == 1 then parts[0]
    else parts[0] + sep + Join(parts[1..], sep)
  }

  lemma JoinCons(a: string, ps: seq<string>, sep: string)
    requires |ps| >= 1
    ensures Join([a] + ps, sep) == a + sep + Join(ps, sep)
  {
    assert ([a] + ps)[1..] == ps;
  }

  /** Appending a part to a non-empty list appends the separator and the part. */
  lemma {:induction false} JoinSnoc(parts: seq<string>, x: string, sep: string)
    requires |parts| >= 1
    ensures Join(parts + [x], sep) == Join(parts, sep) + sep + x
    decreases |parts|
  {
    if |parts| > 1 {
      JoinSnoc(parts[1..], x, sep);
      assert (parts + [x])[1..] == parts[1..] + [x];
    } else {
      assert (parts + [x])[1..] == [x];
    }
  }

  /** A join starts with its first part. */
  lemma JoinFirst(parts: seq<string>, sep: string)
    requires |parts| >= 1
    ensures HasPrefix(Join(parts, sep), parts[0])
  {
  }

  /** A string is the concatenation of the three slices that two indices cut it into. */
  lemma ThreeWay(s: string, i: nat, j: nat)
    requires i <= j <= |s|
    ensures s[..i] + s[i..j] + s[j..] == s
  {
  }

  /** Joining what `Split` produced gives back the original string. */
  lemma {:induction false} JoinSplit(s: string, sep: string)
    requires |sep| > 0
    ensures Join(Split(s, sep), sep) == s
    decreases |s|
  {
    var k := IndexOf(s, sep);
    if k >= 0 {
      var rest := s[k + |sep|..];
      var ps := Split(rest, sep);
      JoinSplit(rest, sep);
      assert Split(s, sep) == [s[..k]] + ps;
      JoinCons(s[..k], ps, sep);
      assert s[k..k + |sep|] == sep;
      ThreeWay(s, k, k + |sep|);
    } else {
      assert Split(s, sep) == [s];
    }
  }

  /** No piece of a split contains the separator. */
  lemma {:induction false} SplitPiecesLackSeparator(s: string, sep: string)
    requires |sep| > 0
    ensures forall p :: p in Split(s, sep) ==> !Contains(p, sep)
    decreases |s|
  {
    var k := IndexOf(s, sep);
    if k >= 0 {
      SplitPiecesLackSeparator(s[k + |sep|..], sep);
      FirstPieceLacksSeparator(s, sep, k);
    }
  }

  /** What precedes the first occurrence holds no occurrence. */
  lemma FirstPieceLacksSeparator(s: string, sep: string, k: nat)
    requires |sep| > 0 && k == IndexOf(s, sep)
    ensures !Contains(s[..k], sep)
  {
    forall j | 0 <= j
      ensures !OccursAt(s[..k], sep, j)
    {
      if j + |sep| <= k {
        SliceOfPrefix(s, k, j, j + |sep|);
        assert !OccursAt(s, sep, j);
      }
    }
  }

  lemma SliceOfPrefix(s: string, k: nat, i: nat, j: nat)
    requires i <= j <= k <= |s|
    ensures s[..k][i..j] == s[i..j]
  {
  }

  lemma SingleCharOccurs(s: string, c: char)
    ensures IndexOf(s, [c]) != -1 <==> c in s
  {
    if c in s {
      var j :| 0 <= j < |s| && s[j] == c;
      assert s[j..j + 1] == [c];
      assert OccursAt(s, [c], j);
    }
    if IndexOf(s, [c]) != -1 {
      var r := IndexOf(s, [c]);
      assert s[r..r + 1] == [c];
      assert s[r] == c;
    }
  }

  /** The first occurrence of a single character, as `IndexOf` finds it. */
  lemma FirstChar(s: string, c: char)
    ensures IndexOf(s, [c]) != -1 <==> c in s
    ensures IndexOf(s, [c]) != -1 ==>
      var k := IndexOf(s, [c]);
      s[k] == c && c !in s[..k]
  {
    SingleCharOccurs(s, c);
    var k := IndexOf(s, [c]);
    if k != -1 {
      assert s[k..k + 1] == [c];
      forall j | 0 <= j < k
        ensures s[j] != c
      {
        if s[j] == c {
          assert s[j..j + 1] == [c];
          assert OccursAt(s, [c], j);
        }
      }
    }
  }

  /** Splitting on a single character gives more than one piece exactly when it occurs. */
  lemma {:induction false} SplitOnCharCount(s: string, c: char)
    ensures |Split(s, [c])| > 1 <==> c in s
    ensures c !in s ==> Split(s, [c]) == [s]
  {
    FirstChar(s, c);
  }

  /** When `c` occurs in `s`, the last piece of `s.split(c)` is what follows its last occurrence. */
  lemma {:induction false} SplitOnCharLastPiece(s: string, c: char)
    requires c in s
    ensures
      var parts := Split(s, [c]);
      parts[|parts| - 1] == s[LastIndex(s, c) + 1..]
    decreases |s|
  {
    FirstChar(s, c);
    var k := IndexOf(s, [c]);
    var rest := s[k + 1..];
    var rp := Split(rest, [c]);
    assert Split(s, [c]) == [s[..k]] + rp;
    SplitOnCharCount(rest, c);
    LastIndexShift(s, k, c);
    if c in rest {
      SplitOnCharLastPiece(rest, c);
      var lr := LastIndex(rest, c);
      assert s[k + 1 + lr + 1..] == rest[lr + 1..];
    }
  }

  /** When `c` occurs in `s`, all pieces of `s.split(c)` but the last rejoin to what precedes its last occurrence. */
  lemma {:induction false} SplitOnCharInit(s: string, c: char)
    requires c in s
    ensures
      var parts := Split(s, [c]);
      Join(parts[..|parts| - 1], [c]) == s[..LastIndex(s, c)]
    decreases |s|
  {
    FirstChar(s, c);
    var k := IndexOf(s, [c]);
    if c in s[k + 1..] {
      SplitOnCharInit(s[k + 1..], c);
      SplitInitStep(s, c, k);
    } else {
      SplitInitOne(s, c, k);
    }
  }

  /** The base case of `SplitOnCharInit`: with one occurrence, the first piece is all that precedes it. */
  lemma SplitInitOne(s: string, c: char, k: nat)
    requires k < |s| && s[k] == c && IndexOf(s, [c]) == k
    requires c !in s[k + 1..]
    ensures
      var parts := Split(s, [c]);
      Join(parts[..|parts| - 1], [c]) == s[..LastIndex(s, c)]
  {
    var rest := s[k + 1..];
    SplitOnCharCount(rest, c);
    LastIndexShift(s, k, c);
    var parts := Split(s, [c]);
    assert parts == [s[..k], rest];
    assert parts[..1] == [s[..k]];
  }

  /** The inductive step of `SplitOnCharInit`: the first piece is prepended to the rejoined rest. */
  lemma SplitInitStep(s: string, c: char, k: nat)
    requires k < |s| && s[k] == c && IndexOf(s, [c]) == k
    requires c in s[k + 1..]
    requires
      var rp := Split(s[k + 1..], [c]);
      Join(rp[..|rp| - 1], [c]) == s[k + 1..][..LastIndex(s[k + 1..], c)]
    ensures
      var parts := Split(s, [c]);
      Join(parts[..|parts| - 1], [c]) == s[..LastIndex(s, c)]
  {
    var rest := s[k + 1..];
    var rp := Split(rest, [c]);
    SplitOnCharCount(rest, c);
    LastIndexShift(s, k, c);
    var lr := LastIndex(rest, c);
    JoinInitOfCons(Split(s, [c]), rp, s[..k], [c]);
    CutAround(s, k, lr);
  }

  /** Dropping the last piece of `[a] + rest` and joining puts `a` in front of the joined rest. */
  lemma JoinInitOfCons(parts: seq<string>, rest: seq<string>, a: string, sep: string)
    requires parts == [a] + rest && |rest| >= 2
    ensures Join(parts[..|parts| - 1], sep) == a + sep + Join(rest[..|rest| - 1], sep)
  {
    assert parts[..|parts| - 1] == [a] + rest[..|rest| - 1];
    JoinCons(a, rest[..|rest| - 1], sep);
  }

  lemma CutAround(s: string, k: nat, lr: nat)
    requires k + 1 + lr <= |s|
    ensures s[..k + 1 + lr] == s[..k] + [s[k]] + s[k + 1..][..lr]
  {
    ThreeWay(s[..k + 1 + lr], k, k + 1);
  }

  /** An occurrence of `c` with none after it is the last one. */
  lemma LastIndexUnique(s: string, c: char, j: nat)
    requires j < |s| && s[j] == c && c !in s[j + 1..]
    ensures LastIndex(s, c) == j
  {
  }

  /** If `s[k]` is `c`, the last occurrence of `c` in `s` is either `k` or lies in `s[k+1..]`. */
  lemma LastIndexShift(s: string, k: nat, c: char)
    requires k < |s| && s[k] == c
    ensures c in s[k + 1..] ==> LastIndex(s, c) == k + 1 + LastIndex(s[k + 1..], c)
    ensures c !in s[k + 1..] ==> LastIndex(s, c) == k
  {
    var rest := s[k + 1..];
    if c in rest {
      var lr := LastIndex(rest, c);
      assert s[k + 1 + lr] == rest[lr];
      assert s[k + 1 + lr + 1..] == rest[lr + 1..];
      LastIndexUnique(s, c, k + 1 + lr);
    } else {
      LastIndexUnique(s, c, k);
    }
  }

  function TrimStart(s: string): (r: string)
    ensures |r| <= |s|
  {
    if |s| > 0 && IsSpace(s[0]) then TrimStart(s[1..]) else s
  }

  function TrimEnd(s: string): (r: string)
    ensures |r| <= |s|
  {
    if |s| > 0 && IsSpace(s[|s| - 1]) then TrimEnd(s[..|s| - 1]) else s
  }

  /** `s.trim()` */
  function Trim(s: string): (r: string)
    ensures |r| <= |s|
  {
    TrimEnd(TrimStart(s))
  }

  /** `s` neither starts nor ends with white space. */
  predicate Trimmed(s: string) {
    |s| == 0 || (!IsSpace(s[0]) && !IsSpace(s[|s| - 1]))
  }

  /** Trimming removes white space only at the ends: a trimmed string is its own trim,
      and white space appended to or prepended to it is removed again. */
  lemma TrimPadded(p: string, left: string, right: string)
    requires Trimmed(p)
    requires forall k :: 0 <= k < |left| ==> IsSpace(left[k])
    requires forall k :: 0 <= k < |right| ==> IsSpace(right[k])
    ensures Trim(left + p + right) == p
  {
    if |p| == 0 {
      var w := left + p + right;
      assert forall k :: 0 <= k < |w| ==> IsSpace(w[k]) by {
        forall k | 0 <= k < |w|
          ensures IsSpace(w[k])
        {
          if k < |left| {
            assert w[k] == left[k];
          } else {
            assert w[k] == right[k - |left|];
          }
        }
      }
      TrimStartAllSpaces(w);
    } else {
      assert left + p + right == left + (p + right);
      TrimStartSpaces(left, p + right);
      TrimEndSpaces(p, right);
    }
  }

  /** A trimmed string is its own trim. */
  lemma TrimmedIsTrim(s: string)
    requires Trimmed(s)
    ensures Trim(s) == s
  {
    TrimPadded(s, "", "");
    assert "" + s + "" == s;
  }

  lemma {:induction false} TrimStartSpaces(left: string, t: string)
    requires forall k :: 0 <= k < |left| ==> IsSpace(left[k])
    requires |t| == 0 || !IsSpace(t[0])
    ensures TrimStart(left + t) == t
    decreases |left|
  {
    if |left| > 0 {
      assert (left + t)[1..] == left[1..] + t;
      TrimStartSpaces(left[1..], t);
    } else {
      assert left + t == t;
    }
  }

  lemma {:induction false} TrimStartAllSpaces(w: string)
    requires forall k :: 0 <= k < |w| ==> IsSpace(w[k])
    ensures TrimStart(w) == ""
    decreases |w|
  {
    if |w| > 0 {
      TrimStartAllSpaces(w[1..]);
    }
  }

  lemma {:induction false} TrimEndSpaces(p: string, right: string)
    requires Trimmed(p)
    requires forall k :: 0 <= k < |right| ==> IsSpace(right[k])
    ensures TrimEnd(p + right) == p
    decreases |right|
  {
    if |right| > 0 {
      assert (p + right)[..|p + right| - 1] == p + right[..|right| - 1];
      TrimEndSpaces(p, right[..|right| - 1]);
    } else {
      assert p + right == p;
      if |p| > 0 {
        assert !IsSpace(p[|p| - 1]);
      }
    }
  }

  /** `s.substring(start, end)`: both bounds clamped to `[0, |s|]`, swapped when reversed. */
  function Substring(s: string, start: int, end: int): string {
    var a := if start < 0 then 0 else if start > |s| then |s| else start;
    var b := if end < 0 then 0 else if end > |s| then |s| else end;
    if a <= b then s[a..b] else s[b..a]
  }

  /** `s.replace(pat, rep)` with a string pattern: only the first occurrence is replaced. */
  function ReplaceFirst(s: string, pat: string, rep: string): string {
    var k := IndexOf(s, pat);
    if k < 0 then s else s[..k] + rep + s[k + |pat|..]
  }

  function DigitChar(d: nat): char
    requires d < 10
  {
    ['0', '1', '2', '3', '4', '5', '6', '7', '8', '9'][d]
  }

  function DigitVal(c: char): nat
    requires IsDigit(c)
  {
    (c as int - '0' as int) as nat
  }

  /** The number a string of decimal digits denotes. */
  function DigitsValue(s: string): nat
    requires AllDigits(s)
  {
    if |s| == 0 then 0 else 10 * DigitsValue(s[..|s| - 1]) + DigitVal(s[|s| - 1])
  }

  /** `"" + n` for a non-negative integer: its shortest decimal form. */
  function Dec(n: nat): (r: string)
    ensures |r| >= 1 && AllDigits(r)
    ensures DigitsValue(r) == n
    ensures |r| > 1 ==> r[0] != '0'
  {
    if n < 10 then [DigitChar(n)] else Dec(n / 10) + [DigitChar(n % 10)]
  }

  /** JavaScript's `<` on strings: lexicographic by character code, a proper prefix first. */
  predicate LexLess(a: string, b: string) {
    if |a| == 0 then |b| > 0
    else if |b| == 0 then false
    else if a[0] != b[0] then a[0] < b[0]
    else LexLess(a[1..], b[1..])
  }

  function Pow10(n: nat): (r: nat)
    ensures r >= 1
  {
    if n == 0 then 1 else 10 * Pow10(n - 1)
  }

  /** A digit string is worth its first digit times its place value plus the rest. */
  lemma {:induction false} DigitsValueFront(a: string)
    requires |a| >= 1 && AllDigits(a)
    ensures DigitsValue(a) == DigitVal(a[0]) * Pow10(|a| - 1) + DigitsValue(a[1..])
    ensures DigitsValue(a) < Pow10(|a|)
    decreases |a|
  {
    DigitsBound(a);
    if |a| > 1 {
      var init, tail := a[..|a| - 1], a[1..];
      DigitsValueFront(init);
      assert init[0] == a[0];
      assert tail[..|tail| - 1] == init[1..];
      assert tail[|tail| - 1] == a[|a| - 1];
      FrontStep(DigitsValue(a), DigitsValue(init), DigitsValue(tail), DigitsValue(init[1..]),
                DigitVal(a[0]), Pow10(|init| - 1), DigitVal(a[|a| - 1]));
    } else {
      assert a[..0] == "";
    }
  }

  /** The arithmetic of one step of `DigitsValueFront`. */
  lemma FrontStep(v: int, vi: int, vt: int, vit: int, d: int, p: int, last: int)
    requires vi == d * p + vit && v == 10 * vi + last && vt == 10 * vit + last
    ensures v == d * (10 * p) + vt
  {
  }

  /** A digit string of length n is worth less than 10^n. */
  lemma {:induction false} DigitsBound(a: string)
    requires AllDigits(a)
    ensures DigitsValue(a) < Pow10(|a|)
    decreases |a|
  {
    if |a| > 0 {
      var init := a[..|a| - 1];
      DigitsBound(init);
      assert DigitsValue(a) == 10 * DigitsValue(init) + DigitVal(a[|a| - 1]);
      assert Pow10(|a|) == 10 * Pow10(|init|);
    }
  }

  /** Two numbers written with the same place value: the larger leading digit wins. */
  lemma LeadingDigitWins(x: nat, y: nat, p: nat, rx: nat, ry: nat)
    requires x < y && rx < p && ry < p
    ensures x * p + rx < y * p + ry
  {
    assert (x + 1) * p <= y * p;
  }

  /** For digit strings of equal length, string order is numeric order. */
  lemma {:induction false} LexLessDigits(a: string, b: string)
    requires |a| == |b| && AllDigits(a) && AllDigits(b)
    ensures LexLess(a, b) <==> DigitsValue(a) < DigitsValue(b)
    decreases |a|
  {
    if |a| > 0 {
      DigitsValueFront(a);
      DigitsValueFront(b);
      DigitsBound(a[1..]);
      DigitsBound(b[1..]);
      var p := Pow10(|a| - 1);
      if a[0] == b[0] {
        LexLessDigits(a[1..], b[1..]);
      } else if a[0] < b[0] {
        LeadingDigitWins(DigitVal(a[0]), DigitVal(b[0]), p, DigitsValue(a[1..]), DigitsValue(b[1..]));
      } else {
        LeadingDigitWins(DigitVal(b[0]), DigitVal(a[0]), p, DigitsValue(b[1..]), DigitsValue(a[1..]));
      }
    }
  }

  /** Leading zeros do not change the value of a digit string. */
  lemma {:induction false} LeadingZeros(z: string, d: string)
    requires AllDigits(z) && AllDigits(d) && DigitsValue(z) == 0
    ensures AllDigits(z + d) && DigitsValue(z + d) == DigitsValue(d)
    decreases |d|
  {
    if |d| == 0 {
      assert z + d == z;
    } else {
      LeadingZeros(z, d[..|d| - 1]);
      assert (z + d)[..|z + d| - 1] == z + d[..|d| - 1];
    }
  }

  /** The length of the decimal form of `n` grows with `n`: four digits exactly on `[1000, 10000)`. */
  lemma DecLength(n: nat)
    ensures n < 10 ==> |Dec(n)| == 1
    ensures 10 <= n < 100 ==> |Dec(n)| == 2
    ensures 100 <= n < 1000 ==> |Dec(n)| == 3
    ensures 1000 <= n < 10000 ==> |Dec(n)| == 4
    ensures 10000 <= n ==> |Dec(n)| >= 5
  {
    if n >= 10 {
      DecLength(n / 10);
    }
  }

  /** `s.replace(/[^0-9]+/gi, "")`: the digits of `s`, in order. */
  function DigitsOnly(s: string): (r: string)
    ensures AllDigits(r) && |r| <= |s|
  {
    if |s| == 0 then ""
    else (if IsDigit(s[0]) then [s[0]] else "") + DigitsOnly(s[1..])
  }

  /** The digits of a string made only of digits are the string itself. */
  lemma {:induction false} DigitsOnlyOfDigits(s: string)
    requires AllDigits(s)
    ensures DigitsOnly(s) == s
  {
    if |s| > 0 {
      DigitsOnlyOfDigits(s[1..]);
    }
  }

  /** Removing non-digits distributes over concatenation. */
  lemma {:induction false} DigitsOnlyAppend(a: string, b: string)
    ensures DigitsOnly(a + b) == DigitsOnly(a) + DigitsOnly(b)
    decreases |a|
  {
    if |a| > 0 {
      assert (a + b)[1..] == a[1..] + b;
      DigitsOnlyAppend(a[1..], b);
    } else {
      assert a + b == b;
    }
  }

  /** Every character survives the removal exactly when it is a digit, and the order is kept. */
  lemma DigitsOnlyKeeps(a: string, c: char, b: string)
    ensures DigitsOnly(a + [c] + b) == DigitsOnly(a) + (if IsDigit(c) then [c] else []) + DigitsOnly(b)
  {
    DigitsOnlyAppend(a + [c], b);
    DigitsOnlyAppend(a, [c]);
    assert [c][1..] == [];
  }

  /** The longest run of digits at the start of `s`. */
  function LeadingDigits(s: string): (r: string)
    ensures AllDigits(r) && HasPrefix(s, r)
    ensures |r| == |s| || !IsDigit(s[|r|])
  {
    if |s| > 0 && IsDigit(s[0]) then [s[0]] + LeadingDigits(s[1..]) else ""
  }

  /**
   * `parseInt(s, 10)`: leading white space skipped, an optional sign, then the
   * longest run of digits; `None` stands for `NaN` (no digits at all).
   */
  function ParseInt(s: string): Option<int> {
    var t := TrimStart(s);
    SignedValue(|t| > 0 && t[0] == '-', LeadingDigits(Unsigned(t)))
  }

  /** `t` without a leading sign. */
  function Unsigned(t: string): string {
    if |t| > 0 && (t[0] == '-' || t[0] == '+') then t[1..] else t
  }

  /** The value of a run of digits with a sign; `None` when there are no digits. */
  function SignedValue(negative: bool, ds: string): Option<int>
    requires AllDigits(ds)
  {
    if |ds| == 0 then None
    else if negative then Some(-(DigitsValue(ds) as int))
    else Some(DigitsValue(ds) as int)
  }

  /**
   * Unary `+s` restricted to integers: surrounding white space ignored, the
   * empty string is 0, an optionally signed run of digits is its value, and
   * anything else is `None` (`NaN`).
   */
  function ToNumber(s: string): Option<int> {
    var t := Trim(s);
    if |t| == 0 then Some(0)
    else if (t[0] == '-' || t[0] == '+') && |t| > 1 && AllDigits(t[1..]) then
      Some(if t[0] == '-' then -(DigitsValue(t[1..]) as int) else DigitsValue(t[1..]) as int)
    else if AllDigits(t) then Some(DigitsValue(t) as int)
    else None
  }

  /** The white space at the start of `s`. */
  function SpaceRun(s: string): (n: nat)
    ensures n <= |s|
    ensures forall k :: 0 <= k < n ==> IsSpace(s[k])
    ensures n < |s| ==> !IsSpace(s[n])
  {
    if |s| > 0 && IsSpace(s[0]) then 1 + SpaceRun(s[1..]) else 0
  }

  /** `s.replace(/\s\s+/g, " ")`: every run of two or more white-space characters becomes one space. */
  function CollapseSpaces(s: string): (r: string)
    ensures |r| <= |s|
    ensures |r| == 0 <==> |s| == 0
  {
    if |s| == 0 then ""
    else
      var n := SpaceRun(s);
      if n >= 2 then " " + CollapseSpaces(s[n..])
      else [s[0]] + CollapseSpaces(s[1..])
  }
}
