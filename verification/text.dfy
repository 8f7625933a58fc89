/** String and sequence helpers with Python's `str` semantics. */
module Text {

  function Last<T>(s: seq<T>): T
    requires |s| > 0
  {
    s[|s| - 1]
  }

  /** `s.startswith(prefix)` */
  predicate StartsWith(s: string, prefix: string) {
    |prefix| <= |s| && s[..|prefix|] == prefix
  }

  /** `s.endswith(suffix)` */
  predicate EndsWith(s: string, suffix: string) {
    |suffix| <= |s| && s[|s| - |suffix|..] == suffix
  }

  /** `sep.join(parts)` for a one-character separator. */
  function Join(parts: seq<string>, sep: char): string {
    if |parts| == 0 then ""
    else if |parts| == 1 then parts[0]
    else parts[0] + [sep] + Join(parts[1..], sep)
  }

  /** `s.split(sep)` for a one-character separator: never empty, and joining undoes it. */
  function Split(s: string, sep: char): (r: seq<string>)
    ensures |r| >= 1
    ensures forall i :: 0 <= i < |r| ==> sep !in r[i]
    ensures Join(r, sep) == s
  {
    if s == [] then [""]
    else
      var rest := Split(s[1..], sep);
      if s[0] == sep then
        assert [sep] + s[1..] == s;
        [""] + rest
      else
        var r := [[s[0]] + rest[0]] + rest[1..];
        assert r[1..] == rest[1..];
        if |rest| == 1 then r
        else
          assert Join(r, sep) == [s[0]] + rest[0] + [sep] + Join(rest[1..], sep);
          r
  }

  /** Splitting at a separator the string contains splits both sides independently. */
  lemma {:induction false} SplitConcat(a: string, b: string, sep: char)
    ensures Split(a + [sep] + b, sep) == Split(a, sep) + Split(b, sep)
  {
    if a == [] {
      assert a + [sep] + b == [sep] + b;
      assert ([sep] + b)[1..] == b;
    } else {
      var t := a + [sep] + b;
      assert t[0] == a[0] && t[1..] == a[1..] + [sep] + b;
      SplitConcat(a[1..], b, sep);
    }
  }

  /** A string without the separator splits into itself alone. */
  lemma {:induction false} SplitNoSep(a: string, sep: char)
    requires sep !in a
    ensures Split(a, sep) == [a]
  {
    if a != [] {
      assert sep !in a[1..];
      SplitNoSep(a[1..], sep);
      assert [a[0]] + a[1..] == a;
    }
  }

  /** A leading separator splits off an empty first part. */
  lemma SplitLeadingSep(b: string, sep: char)
    ensures Split([sep] + b, sep) == [""] + Split(b, sep)
  {
    assert [sep] + b == [] + [sep] + b;
    SplitConcat([], b, sep);
  }

  /** A separator-free head before a separator splits off as the first part. */
  lemma SplitFirstPart(a: string, b: string, sep: char)
    requires sep !in a
    ensures Split(a + [sep] + b, sep) == [a] + Split(b, sep)
  {
    SplitConcat(a, b, sep);
    SplitNoSep(a, sep);
  }

  /** A trailing separator splits off an empty last part. */
  lemma SplitTrailingSep(a: string, sep: char)
    ensures Split(a + [sep], sep) == Split(a, sep) + [""]
  {
    assert a + [sep] == a + [sep] + [];
    SplitConcat(a, [], sep);
  }

  /** A join ends with its last part. */
  lemma {:induction false} JoinEndsWithLast(parts: seq<string>, sep: char)
    requires |parts| >= 1
    ensures EndsWith(Join(parts, sep), Last(parts))
  {
    if |parts| > 1 {
      JoinEndsWithLast(parts[1..], sep);
      var j := Join(parts[1..], sep);
      var whole := parts[0] + [sep] + j;
      assert whole[|whole| - |Last(parts)|..] == j[|j| - |Last(parts)|..];
    }
  }

  /** `Split` inverts `Join` when no part contains the separator. */
  lemma {:induction false} SplitJoin(parts: seq<string>, sep: char)
    requires |parts| >= 1
    requires forall i :: 0 <= i < |parts| ==> sep !in parts[i]
    ensures Split(Join(parts, sep), sep) == parts
  {
    if |parts| == 1 {
      SplitNoSep(parts[0], sep);
    } else {
      SplitJoin(parts[1..], sep);
      SplitConcat(parts[0], Join(parts[1..], sep), sep);
      SplitNoSep(parts[0], sep);
      assert [parts[0]] + parts[1..] == parts;
    }
  }

  /** The elements of `xs` satisfying `keep`, in their original order. */
  function Filter<T>(xs: seq<T>, keep: T -> bool): (r: seq<T>)
    ensures |r| <= |xs|
    ensures forall i :: 0 <= i < |r| ==> r[i] in xs && keep(r[i])
    ensures forall i :: 0 <= i < |xs| && keep(xs[i]) ==> xs[i] in r
  {
    if xs == [] then []
    else
      var rest := Filter(xs[1..], keep);
      assert forall i :: 1 <= i < |xs| ==> xs[i] == xs[1..][i - 1];
      if keep(xs[0]) then [xs[0]] + rest else rest
  }

  /** Filtering with a predicate every element satisfies keeps the sequence whole. */
  lemma {:induction false} FilterAll<T>(xs: seq<T>, keep: T -> bool)
    requires forall i :: 0 <= i < |xs| ==> keep(xs[i])
    ensures Filter(xs, keep) == xs
  {
    if xs != [] {
      FilterAll(xs[1..], keep);
    }
  }

  /** Filtering distributes over concatenation. */
  lemma {:induction false} FilterConcat<T>(xs: seq<T>, ys: seq<T>, keep: T -> bool)
    ensures Filter(xs + ys, keep) == Filter(xs, keep) + Filter(ys, keep)
  {
    if xs != [] {
      assert (xs + ys)[1..] == xs[1..] + ys;
      FilterConcat(xs[1..], ys, keep);
    } else {
      assert xs + ys == ys;
    }
  }

  /** `x` occurs in `xs` at some index before an occurrence of `y`. */
  ghost predicate InOrder<T>(xs: seq<T>, x: T, y: T) {
    exists a, b :: 0 <= a < b < |xs| && xs[a] == x && xs[b] == y
  }

  lemma InOrderTail<T>(xs: seq<T>, x: T, y: T)
    requires xs != [] && InOrder(xs[1..], x, y)
    ensures InOrder(xs, x, y)
  {
    var a, b :| 0 <= a < b < |xs[1..]| && xs[1..][a] == x && xs[1..][b] == y;
    assert xs[a + 1] == x && xs[b + 1] == y;
  }

  lemma InOrderHead<T>(xs: seq<T>, y: T)
    requires xs != [] && y in xs[1..]
    ensures InOrder(xs, xs[0], y)
  {
    var b :| 0 <= b < |xs[1..]| && xs[1..][b] == y;
    assert xs[b + 1] == y;
  }

  /** `Filter` without its contract, so that proofs about order see only its shape. */
  function Sift<T>(xs: seq<T>, keep: T -> bool): seq<T>
    decreases |xs|
  {
    if xs == [] then []
    else if keep(xs[0]) then [xs[0]] + Sift(xs[1..], keep)
    else Sift(xs[1..], keep)
  }

  lemma {:induction false} SiftIsFilter<T>(xs: seq<T>, keep: T -> bool)
    ensures Sift(xs, keep) == Filter(xs, keep)
    decreases |xs|
  {
    if xs != [] {
      SiftIsFilter(xs[1..], keep);
    }
  }

  lemma {:induction false} SiftMember<T>(xs: seq<T>, keep: T -> bool, k: nat)
    requires k < |Sift(xs, keep)|
    ensures Sift(xs, keep)[k] in xs
    decreases |xs|
  {
    if keep(xs[0]) && k == 0 {
    } else {
      var k' := if keep(xs[0]) then k - 1 else k;
      SiftMember(xs[1..], keep, k');
      assert Sift(xs, keep)[k] == Sift(xs[1..], keep)[k'];
    }
  }

  lemma {:induction false} SiftOrder<T>(xs: seq<T>, keep: T -> bool, i: nat, j: nat)
    requires i < j < |Sift(xs, keep)|
    ensures InOrder(xs, Sift(xs, keep)[i], Sift(xs, keep)[j])
    decreases |xs|
  {
    var rest := Sift(xs[1..], keep);
    if keep(xs[0]) {
      if i == 0 {
        SiftMember(xs[1..], keep, j - 1);
        InOrderHead(xs, rest[j - 1]);
      } else {
        SiftOrder(xs[1..], keep, i - 1, j - 1);
        InOrderTail(xs, rest[i - 1], rest[j - 1]);
      }
    } else {
      SiftOrder(xs[1..], keep, i, j);
      InOrderTail(xs, rest[i], rest[j]);
    }
  }

  /** Filtering keeps the original order: an earlier element of the result comes earlier in the input. */
  lemma FilterOrder<T>(xs: seq<T>, keep: T -> bool, i: nat, j: nat)
    requires i < j < |Filter(xs, keep)|
    ensures InOrder(xs, Filter(xs, keep)[i], Filter(xs, keep)[j])
  {
    SiftIsFilter(xs, keep);
    SiftOrder(xs, keep, i, j);
  }

  /** The concatenation of a sequence of strings. */
  function Concat(parts: seq<string>): string {
    if parts == [] then "" else parts[0] + Concat(parts[1..])
  }
}
