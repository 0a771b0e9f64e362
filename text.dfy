/**
 * The string facilities the load-clause builder takes from the Java library:
 * decimal rendering of the counters (`Integer.toString`, and `%d` in a
 * default locale with any zero digit), the natural ordering of strings (`String.compareTo`) and sorting by it
 * (`Stream.sorted`), and joining with a delimiter (`Collectors.joining`).
 */
module Text {

  // ---------------------------------------------------------------------------
  // Decimal rendering of non-negative counters
  // ---------------------------------------------------------------------------

  predicate IsDigit(c: char) {
    '0' <= c <= '9'
  }

  predicate AllDigits(s: string) {
    forall i :: 0 <= i < |s| ==> IsDigit(s[i])
  }

  function DigitChar(d: nat): (c: char)
    requires d < 10
    ensures IsDigit(c) && c as int - '0' as int == d
  {
    (d + '0' as int) as char
  }

  /** The decimal representation of `n`, as `Integer.toString` gives it for a non-negative int. */
  function NatToString(n: nat): (s: string)
    ensures |s| > 0 && AllDigits(s)
  {
    if n < 10 then [DigitChar(n)] else NatToString(n / 10) + [DigitChar(n % 10)]
  }

  /** The number a string of decimal digits denotes; the inverse of `NatToString`. */
  function DecimalValue(s: string): nat
    requires AllDigits(s)
  {
    if s == [] then 0
    else 10 * DecimalValue(s[..|s| - 1]) + (s[|s| - 1] as int - '0' as int)
  }

  lemma {:induction false} DecimalRoundTrip(n: nat)
    ensures DecimalValue(NatToString(n)) == n
  {
    var s := NatToString(n);
    if n < 10 {
      assert s[..|s| - 1] == [];
    } else {
      DecimalRoundTrip(n / 10);
      assert s[..|s| - 1] == NatToString(n / 10);
    }
  }

  /** Distinct counters are rendered as distinct strings. */
  lemma NatToStringInjective(a: nat, b: nat)
    requires NatToString(a) == NatToString(b)
    ensures a == b
  {
    DecimalRoundTrip(a);
    DecimalRoundTrip(b);
  }

  /**
   * The zero digits a default locale can give `String.format`: ten
   * consecutive code points, all outside the surrogate range.
   */
  predicate ZeroDigit(zero: char) {
    zero as int + 9 < 0xD800 || 0xE000 <= zero as int <= 0xFFFF - 9
  }

  /**
   * `String.format("%d", n)` for a non-negative `n` in a default locale whose
   * zero digit is `zero`: the digit characters run from `zero` instead of
   * '0' (U+0660 in Arabic locales, U+06F0 in Persian, U+0E50 in Thai).
   */
  function FormatDecimal(zero: char, n: nat): (s: string)
    requires ZeroDigit(zero)
    ensures |s| == |NatToString(n)|
    ensures forall i :: 0 <= i < |s| ==> s[i] as int - zero as int == NatToString(n)[i] as int - '0' as int
  {
    var d := NatToString(n);
    seq(|d|, i requires 0 <= i < |d| => (zero as int + (d[i] as int - '0' as int)) as char)
  }

  /** With the zero digit '0', `%d` writes what `Integer.toString` writes. */
  lemma FormatDecimalAscii(n: nat)
    ensures FormatDecimal('0', n) == NatToString(n)
  {
  }

  /** With any other zero digit, `%d` and `Integer.toString` disagree from the first character on. */
  lemma FormatDecimalDiffers(zero: char, n: nat)
    requires ZeroDigit(zero) && zero != '0'
    ensures FormatDecimal(zero, n)[0] != NatToString(n)[0]
  {
  }

  // ---------------------------------------------------------------------------
  // The natural ordering of strings and sorting by it
  // ---------------------------------------------------------------------------

  /**
   * Lexicographic order on characters, a proper prefix coming first: the
   * order `String.compareTo` defines.
   */
  predicate StrLeq(a: string, b: string) {
    |a| == 0 || (|b| > 0 && (a[0] < b[0] || (a[0] == b[0] && StrLeq(a[1..], b[1..]))))
  }

  lemma {:induction false} StrLeqReflexive(a: string)
    ensures StrLeq(a, a)
  {
    if |a| > 0 {
      StrLeqReflexive(a[1..]);
    }
  }

  lemma {:induction false} StrLeqTotal(a: string, b: string)
    ensures StrLeq(a, b) || StrLeq(b, a)
  {
    if |a| > 0 && |b| > 0 && a[0] == b[0] {
      StrLeqTotal(a[1..], b[1..]);
    }
  }

  lemma {:induction false} StrLeqAntisymmetric(a: string, b: string)
    requires StrLeq(a, b) && StrLeq(b, a)
    ensures a == b
  {
    if |a| > 0 {
      StrLeqAntisymmetric(a[1..], b[1..]);
      assert a == [a[0]] + a[1..] && b == [b[0]] + b[1..];
    }
  }

  lemma {:induction false} StrLeqTransitive(a: string, b: string, c: string)
    requires StrLeq(a, b) && StrLeq(b, c)
    ensures StrLeq(a, c)
  {
    if |a| > 0 && a[0] == b[0] && b[0] == c[0] {
      StrLeqTransitive(a[1..], b[1..], c[1..]);
    }
  }

  /** Each string is ordered before its successor. */
  predicate Sorted(s: seq<string>) {
    forall i :: 0 < i < |s| ==> StrLeq(s[i - 1], s[i])
  }

  /** A string ordered before the head of a sorted sequence can be put in front of it. */
  lemma SortedCons(h: string, t: seq<string>)
    requires Sorted(t) && (|t| > 0 ==> StrLeq(h, t[0]))
    ensures Sorted([h] + t)
  {
  }

  /** Inserts `x` before the first element it is ordered before. */
  function Insert(x: string, s: seq<string>): (r: seq<string>)
    ensures |r| == |s| + 1
  {
    if s == [] || StrLeq(x, s[0]) then [x] + s else [s[0]] + Insert(x, s[1..])
  }

  /** Inserting into a sorted sequence keeps it sorted; the new head is `x` or the old head. */
  lemma {:induction false} InsertSorted(x: string, s: seq<string>)
    requires Sorted(s)
    ensures Sorted(Insert(x, s))
    ensures Insert(x, s)[0] == x || (|s| > 0 && Insert(x, s)[0] == s[0])
  {
    if s == [] || StrLeq(x, s[0]) {
      SortedCons(x, s);
    } else {
      DropHead(s);
      StrLeqTotal(x, s[0]);
      InsertSorted(x, s[1..]);
      SortedCons(s[0], Insert(x, s[1..]));
    }
  }

  /** Inserting adds `x` and keeps every other string. */
  lemma {:induction false} InsertMultiset(x: string, s: seq<string>)
    ensures multiset(Insert(x, s)) == multiset(s) + multiset{x}
  {
    if s != [] && !StrLeq(x, s[0]) {
      InsertMultiset(x, s[1..]);
      assert s == [s[0]] + s[1..];
    }
  }

  /** The strings of `s` in ascending order, duplicates kept. */
  function SortStrings(s: seq<string>): (r: seq<string>)
    ensures Sorted(r)
    ensures multiset(r) == multiset(s)
  {
    if s == [] then []
    else
      var t := SortStrings(s[1..]);
      InsertSorted(s[0], t);
      InsertMultiset(s[0], t);
      assert s == [s[0]] + s[1..];
      Insert(s[0], t)
  }

  /** A single string is already sorted. */
  lemma SortSingleton(p: string)
    ensures SortStrings([p]) == [p]
  {
    assert [p][1..] == [];
  }

  lemma {:induction false} SortedHeadIsLeast(s: seq<string>, i: int)
    requires Sorted(s) && 0 <= i < |s|
    ensures StrLeq(s[0], s[i])
  {
    if i == 0 {
      StrLeqReflexive(s[0]);
    } else {
      SortedHeadIsLeast(s, i - 1);
      StrLeqTransitive(s[0], s[i - 1], s[i]);
    }
  }

  /** Two sorted permutations of each other start with the same string. */
  lemma SortedSameHead(a: seq<string>, b: seq<string>)
    requires Sorted(a) && Sorted(b) && multiset(a) == multiset(b) && |a| > 0
    ensures |b| > 0 && a[0] == b[0]
  {
    assert |b| == |multiset(b)| == |multiset(a)| == |a|;
    assert a[0] in multiset(b);
    var i :| 0 <= i < |b| && b[i] == a[0];
    SortedHeadIsLeast(b, i);
    assert b[0] in multiset(a);
    var j :| 0 <= j < |a| && a[j] == b[0];
    SortedHeadIsLeast(a, j);
    StrLeqAntisymmetric(a[0], b[0]);
  }

  /**
   * A sorted permutation is unique, so any sorting algorithm (the stable merge
   * sort behind `Stream.sorted` among them) yields what `SortStrings` yields.
   */
  lemma {:induction false} SortedPermutationUnique(a: seq<string>, b: seq<string>)
    requires Sorted(a) && Sorted(b) && multiset(a) == multiset(b)
    ensures a == b
  {
    if |a| == 0 {
      assert |b| == |multiset(b)| == 0;
    } else {
      SortedSameHead(a, b);
      DropHead(a);
      DropHead(b);
      SortedPermutationUnique(a[1..], b[1..]);
    }
  }

  /** Dropping the head of a sorted sequence leaves a sorted sequence of the remaining strings. */
  lemma DropHead(a: seq<string>)
    requires Sorted(a) && |a| > 0
    ensures Sorted(a[1..])
    ensures multiset(a[1..]) == multiset(a) - multiset{a[0]}
    ensures a == [a[0]] + a[1..]
  {
    assert a == [a[0]] + a[1..];
  }

  lemma SortStringsIsTheSortedPermutation(s: seq<string>, r: seq<string>)
    requires Sorted(r) && multiset(r) == multiset(s)
    ensures SortStrings(s) == r
  {
    SortedPermutationUnique(SortStrings(s), r);
  }

  // ---------------------------------------------------------------------------
  // Joining with a delimiter
  // ---------------------------------------------------------------------------

  /** The strings back to back, as appending them to one `StringBuilder` leaves them. */
  function Concat(ss: seq<string>): string {
    if ss == [] then "" else Concat(ss[..|ss| - 1]) + ss[|ss| - 1]
  }

  /** A slice inside the left part of a concatenation is a slice of that part. */
  lemma SliceLeft(a: string, b: string, i: nat, j: nat)
    requires i <= j <= |a|
    ensures (a + b)[i..j] == a[i..j]
  {
  }

  /** A slice inside the right part of a concatenation is a slice of that part. */
  lemma SliceRight(a: string, b: string, i: nat, j: nat)
    requires i <= j <= |b|
    ensures (a + b)[|a| + i..|a| + j] == b[i..j]
  {
  }

  lemma ConcatSingleton(t: string)
    ensures Concat([t]) == t
  {
    assert [t][..0] == [];
  }

  lemma {:induction false} ConcatAppend(ss: seq<string>, tt: seq<string>)
    ensures Concat(ss + tt) == Concat(ss) + Concat(tt)
    decreases |tt|
  {
    if tt == [] {
      assert ss + tt == ss;
    } else {
      var init := tt[..|tt| - 1];
      ConcatAppend(ss, init);
      assert (ss + tt)[..|ss + tt| - 1] == ss + init;
    }
  }

  /** The parts with `sep` between neighbours, as `Collectors.joining(sep)`. */
  function Join(sep: string, parts: seq<string>): string {
    if |parts| == 0 then ""
    else if |parts| == 1 then parts[0]
    else Join(sep, parts[..|parts| - 1]) + sep + parts[|parts| - 1]
  }

  /** Splits `s` at every occurrence of `c`; the inverse of joining with `[c]`. */
  function Split(s: string, c: char): (r: seq<string>)
    ensures |r| > 0
  {
    if s == [] then [""]
    else
      var init := Split(s[..|s| - 1], c);
      if s[|s| - 1] == c then init + [""]
      else init[..|init| - 1] + [init[|init| - 1] + [s[|s| - 1]]]
  }

  lemma {:induction false} SplitAfterSeparator(x: string, c: char, p: string)
    requires c !in p
    ensures Split(x + [c] + p, c) == Split(x, c) + [p]
  {
    if p == [] {
      assert (x + [c] + p)[..|x + [c] + p| - 1] == x;
    } else {
      var q := p[..|p| - 1];
      SplitAfterSeparator(x, c, q);
      assert (x + [c] + p)[..|x + [c] + p| - 1] == x + [c] + q;
      assert q + [p[|p| - 1]] == p;
    }
  }

  lemma {:induction false} SplitWithout(p: string, c: char)
    requires c !in p
    ensures Split(p, c) == [p]
  {
    if p != [] {
      var q := p[..|p| - 1];
      SplitWithout(q, c);
      assert q + [p[|p| - 1]] == p;
    }
  }

  /** Joining with one character that no part contains can be undone by splitting at it. */
  lemma {:induction false} JoinSplitRoundTrip(c: char, parts: seq<string>)
    requires |parts| > 0
    requires forall i :: 0 <= i < |parts| ==> c !in parts[i]
    ensures Split(Join([c], parts), c) == parts
  {
    var n := |parts|;
    if n == 1 {
      SplitWithout(parts[0], c);
    } else {
      var init := parts[..n - 1];
      JoinSplitRoundTrip(c, init);
      SplitAfterSeparator(Join([c], init), c, parts[n - 1]);
      assert init + [parts[n - 1]] == parts;
    }
  }
}
