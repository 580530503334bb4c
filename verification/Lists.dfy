/** Splitting, joining and weighing sequences: the shared vocabulary of the other modules. */
module Lists {

  datatype Option<T> = None | Some(value: T)

  /** The pieces of `s` between occurrences of `sep`, as Rust's `str::split` yields them. */
  function Split<T(==)>(s: seq<T>, sep: T): (parts: seq<seq<T>>)
    ensures |parts| > 0
  {
    if s == [] then [[]]
    else Extend(s[0], Split(s[1..], sep), sep)
  }

  /** Put `x` in front of a text already split into `parts`. */
  function Extend<T(==)>(x: T, parts: seq<seq<T>>, sep: T): (r: seq<seq<T>>)
    requires |parts| > 0
    ensures |r| > 0
  {
    if x == sep then [[]] + parts else [[x] + parts[0]] + parts[1..]
  }

  /** The inverse of `Split`, as Rust's `join` computes it. */
  function Join<T>(parts: seq<seq<T>>, sep: T): seq<T>
  {
    if |parts| == 0 then []
    else if |parts| == 1 then parts[0]
    else parts[0] + [sep] + Join(parts[1..], sep)
  }

  lemma ExtendAppend<T>(x: T, p: seq<seq<T>>, q: seq<seq<T>>, sep: T)
    requires |p| > 0
    ensures Extend(x, p + q, sep) == Extend(x, p, sep) + q
  {
  }

  /** Splitting distributes over a separator, whatever stands on either side of it. */
  lemma {:induction false} SplitAt<T>(s: seq<T>, k: nat, sep: T)
    requires k < |s| && s[k] == sep
    ensures Split(s, sep) == Split(s[..k], sep) + Split(s[k + 1..], sep)
  {
    if k > 0 {
      SplitAt(s[1..], k - 1, sep);
      assert s[1..][..k - 1] == s[..k][1..];
      assert s[1..][k..] == s[k + 1..];
      ExtendAppend(s[0], Split(s[..k][1..], sep), Split(s[k + 1..], sep), sep);
    }
  }

  lemma SplitAppend<T>(a: seq<T>, b: seq<T>, sep: T)
    ensures Split(a + [sep] + b, sep) == Split(a, sep) + Split(b, sep)
  {
    var s := a + [sep] + b;
    SplitAt(s, |a|, sep);
    assert s[..|a|] == a && s[|a| + 1..] == b;
  }

  lemma {:induction false} SplitPieces<T>(s: seq<T>, sep: T)
    ensures forall i :: 0 <= i < |Split(s, sep)| ==> sep !in Split(s, sep)[i]
  {
    if s != [] {
      SplitPieces(s[1..], sep);
    }
  }

  lemma {:induction false} SplitWhole<T>(a: seq<T>, sep: T)
    requires sep !in a
    ensures Split(a, sep) == [a]
  {
    if a != [] {
      SplitWhole(a[1..], sep);
      assert [a[0]] + a[1..] == a;
    }
  }

  /** Round trip: separator-free pieces survive printing and splitting. */
  lemma {:induction false} SplitJoin<T>(parts: seq<seq<T>>, sep: T)
    requires |parts| > 0
    requires forall i :: 0 <= i < |parts| ==> sep !in parts[i]
    ensures Split(Join(parts, sep), sep) == parts
  {
    SplitWhole(parts[0], sep);
    if |parts| == 1 {
      assert parts == [parts[0]];
    } else {
      SplitAppend(parts[0], Join(parts[1..], sep), sep);
      SplitJoin(parts[1..], sep);
      assert [parts[0]] + parts[1..] == parts;
    }
  }

  /** Round trip the other way: joining the pieces gives the text back. */
  lemma {:induction false} JoinSplit<T>(s: seq<T>, sep: T)
    ensures Join(Split(s, sep), sep) == s
  {
    if sep in s {
      var k := FirstIndex(s, sep);
      var rest := Split(s[k + 1..], sep);
      SplitAt(s, k, sep);
      SplitWhole(s[..k], sep);
      JoinSplit(s[k + 1..], sep);
      assert ([s[..k]] + rest)[1..] == rest;
      assert s == s[..k] + [sep] + s[k + 1..];
    } else {
      SplitWhole(s, sep);
    }
  }

  /** The position of the first `x` in `s`. */
  function FirstIndex<T(==)>(s: seq<T>, x: T): (k: nat)
    requires x in s
    ensures k < |s| && s[k] == x && x !in s[..k]
  {
    if s[0] == x then 0
    else
      var k := FirstIndex(s[1..], x);
      assert s[..k + 1] == [s[0]] + s[1..][..k];
      k + 1
  }

  /** The sum of the weights of the elements of `s`. */
  function Sum<T>(s: seq<T>, w: T -> int): int
  {
    if s == [] then 0 else Sum(s[..|s| - 1], w) + w(s[|s| - 1])
  }

  lemma SumAppend<T>(s: seq<T>, x: T, w: T -> int)
    ensures Sum(s + [x], w) == Sum(s, w) + w(x)
  {
    assert (s + [x])[..|s|] == s;
  }

  lemma {:induction false} SumUpdate<T>(s: seq<T>, i: nat, x: T, w: T -> int)
    requires i < |s|
    ensures Sum(s[i := x], w) == Sum(s, w) - w(s[i]) + w(x)
  {
    var n := |s| - 1;
    if i == n {
      assert s[i := x][..n] == s[..n];
    } else {
      assert s[i := x][..n] == s[..n][i := x];
      SumUpdate(s[..n], i, x, w);
    }
  }

  lemma {:induction false} SumNonNegative<T>(s: seq<T>, w: T -> int)
    requires forall x :: w(x) >= 0
    ensures Sum(s, w) >= 0
    ensures forall i :: 0 <= i < |s| ==> w(s[i]) <= Sum(s, w)
  {
    if s != [] {
      SumNonNegative(s[..|s| - 1], w);
      forall i | 0 <= i < |s| ensures w(s[i]) <= Sum(s, w) {
        if i < |s| - 1 {
          assert s[i] == s[..|s| - 1][i];
        }
      }
    }
  }

  lemma {:induction false} SumMonotone<T>(s: seq<T>, v: T -> int, w: T -> int)
    requires forall x :: v(x) <= w(x)
    ensures Sum(s, v) <= Sum(s, w)
  {
    if s != [] {
      SumMonotone(s[..|s| - 1], v, w);
    }
  }

  /** A sum of zero-or-more weights that is positive has a positive element. */
  lemma {:induction false} SumWitness<T>(s: seq<T>, w: T -> int) returns (i: nat)
    requires Sum(s, w) > 0
    ensures i < |s| && w(s[i]) > 0
  {
    if w(s[|s| - 1]) > 0 {
      i := |s| - 1;
    } else {
      i := SumWitness(s[..|s| - 1], w);
    }
  }

  /** A weight of zero or one counts the positions at which it is one. */
  lemma {:induction false} SumIsSize<T>(s: seq<T>, w: T -> int, ones: set<nat>)
    requires forall x :: w(x) == 0 || w(x) == 1
    requires forall i: nat :: i in ones <==> i < |s| && w(s[i]) == 1
    ensures Sum(s, w) == |ones|
  {
    if s == [] {
      assert ones == {};
    } else {
      var n := |s| - 1;
      assert forall i :: 0 <= i < n ==> s[i] == s[..n][i];
      SumIsSize(s[..n], w, ones - {n});
      assert w(s[n]) == 1 ==> ones == ones - {n} + {n};
      assert w(s[n]) == 0 ==> ones == ones - {n};
    }
  }
}
