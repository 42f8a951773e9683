/** Sequences: sums, repetitions and concatenation. */
module Sequences {

  function Total<T>(s: seq<T>, f: T -> int): int {
    if s == [] then 0 else f(s[0]) + Total(s[1..], f)
  }

  lemma {:induction false} TotalConcat<T>(a: seq<T>, b: seq<T>, f: T -> int)
    ensures Total(a + b, f) == Total(a, f) + Total(b, f)
  {
    if a == [] {
      assert a + b == b;
    } else {
      assert (a + b)[1..] == a[1..] + b;
      TotalConcat(a[1..], b, f);
    }
  }

  lemma TotalAppend<T>(s: seq<T>, x: T, f: T -> int)
    ensures Total(s + [x], f) == Total(s, f) + f(x)
  {
    TotalConcat(s, [x], f);
  }

  lemma {:induction false} TotalUpdate<T>(s: seq<T>, i: nat, x: T, f: T -> int)
    requires i < |s|
    ensures Total(s[i := x], f) == Total(s, f) - f(s[i]) + f(x)
  {
    if i == 0 {
      assert s[i := x][1..] == s[1..];
    } else {
      assert s[i := x][1..] == s[1..][i - 1 := x];
      TotalUpdate(s[1..], i - 1, x, f);
    }
  }

  lemma {:induction false} TotalRemove<T>(s: seq<T>, i: nat, f: T -> int)
    requires i < |s|
    ensures Total(s[..i] + s[i + 1..], f) == Total(s, f) - f(s[i])
  {
    TotalConcat(s[..i], s[i..], f);
    TotalConcat(s[..i], s[i + 1..], f);
    assert s == s[..i] + s[i..];
    assert s[i..][1..] == s[i + 1..];
  }

  /** A sum of terms that are all at least `low` and at most `high`. */
  lemma {:induction false} TotalBounds<T>(s: seq<T>, f: T -> int, low: int, high: int)
    requires forall i :: 0 <= i < |s| ==> low <= f(s[i]) <= high
    ensures low * |s| <= Total(s, f) <= high * |s|
    ensures Total(s, f) == high * |s| ==> forall i :: 0 <= i < |s| ==> f(s[i]) == high
    ensures Total(s, f) == low * |s| ==> forall i :: 0 <= i < |s| ==> f(s[i]) == low
  {
    if s != [] {
      var t := s[1..];
      assert forall i :: 0 <= i < |t| ==> t[i] == s[i + 1];
      TotalBounds(t, f, low, high);
      assert forall i :: 0 < i < |s| ==> s[i] == t[i - 1];
      assert low * |s| == low * |t| + low && high * |s| == high * |t| + high;
    }
  }

  /** A sum of terms that are not negative is 0 only if they all are. */
  lemma {:induction false} TotalZero<T>(s: seq<T>, f: T -> int)
    requires forall i :: 0 <= i < |s| ==> f(s[i]) >= 0
    ensures Total(s, f) >= 0
    ensures Total(s, f) == 0 <==> forall i :: 0 <= i < |s| ==> f(s[i]) == 0
  {
    if s != [] {
      var t := s[1..];
      assert forall i :: 0 <= i < |t| ==> t[i] == s[i + 1];
      TotalZero(t, f);
      assert forall i :: 0 < i < |s| ==> s[i] == t[i - 1];
    }
  }

  ghost predicate NoRepeats<T>(s: seq<T>) {
    forall i, j :: 0 <= i < j < |s| ==> s[i] != s[j]
  }

  lemma NoRepeatsCons<T>(x: T, s: seq<T>)
    ensures NoRepeats([x] + s) <==> x !in s && NoRepeats(s)
  {
    var t := [x] + s;
    if NoRepeats(t) {
      forall i | 0 <= i < |s| ensures x != s[i] {
        assert t[0] != t[i + 1];
      }
      forall i, j | 0 <= i < j < |s| ensures s[i] != s[j] {
        assert t[i + 1] != t[j + 1];
      }
    }
  }

  lemma NoRepeatsTail<T>(s: seq<T>)
    requires s != [] && NoRepeats(s)
    ensures s[0] !in s[1..] && NoRepeats(s[1..])
  {
    forall i | 0 <= i < |s| - 1 ensures s[1..][i] != s[0] {
      assert s[0] != s[i + 1];
    }
  }

  lemma Associative<T>(a: seq<T>, b: seq<T>, c: seq<T>)
    ensures (a + b) + c == a + (b + c)
  {
  }
}
