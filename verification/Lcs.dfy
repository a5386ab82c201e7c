/** Longest common subsequences: the recurrence a diff table is filled with, and the proof that the
    recurrence computes the length of a longest common subsequence. */
module Lcs {
  ghost predicate Subsequence<T>(s: seq<T>, a: seq<T>) {
    s == [] || (a != [] && ((s[0] == a[0] && Subsequence(s[1..], a[1..])) || Subsequence(s, a[1..])))
  }

  ghost predicate Common<T>(s: seq<T>, a: seq<T>, b: seq<T>) {
    Subsequence(s, a) && Subsequence(s, b)
  }

  /** `n` is the length of a longest common subsequence of `a` and `b`. */
  ghost predicate IsLongest<T(!new)>(n: nat, a: seq<T>, b: seq<T>) {
    && (exists s :: Common(s, a, b) && |s| == n)
    && (forall s :: Common(s, a, b) ==> |s| <= n)
  }

  /** The recurrence over suffixes. A matching pair of heads is always taken. */
  function Length<T(==)>(a: seq<T>, b: seq<T>): nat
    decreases |a| + |b|
  {
    if a == [] || b == [] then 0
    else if a[0] == b[0] then Length(a[1..], b[1..]) + 1
    else Max(Length(a[1..], b), Length(a, b[1..]))
  }

  function Max(x: nat, y: nat): nat { if x < y then y else x }

  lemma {:induction false} SkipHead<T>(s: seq<T>, a: seq<T>)
    requires a != [] && Subsequence(s, a[1..])
    ensures Subsequence(s, a)
  {}

  lemma {:induction false} DropFirst<T>(s: seq<T>, a: seq<T>)
    requires s != [] && Subsequence(s, a)
    ensures a != [] && Subsequence(s[1..], a[1..])
  {
    if s[0] == a[0] && Subsequence(s[1..], a[1..]) {
    } else {
      DropFirst(s, a[1..]);
      SkipHead(s[1..], a[1..]);
    }
  }

  lemma {:induction false} Bound<T>(s: seq<T>, a: seq<T>, b: seq<T>)
    requires Common(s, a, b)
    ensures |s| <= Length(a, b)
    decreases |a| + |b|
  {
    if s == [] {
    } else if a[0] == b[0] {
      DropFirst(s, a);
      DropFirst(s, b);
      Bound(s[1..], a[1..], b[1..]);
    } else if s[0] != a[0] {
      Bound(s, a[1..], b);
    } else {
      Bound(s, a, b[1..]);
    }
  }

  lemma {:induction false} Attained<T>(a: seq<T>, b: seq<T>) returns (s: seq<T>)
    ensures Common(s, a, b) && |s| == Length(a, b)
    decreases |a| + |b|
  {
    if a == [] || b == [] {
      s := [];
    } else if a[0] == b[0] {
      var rest := Attained(a[1..], b[1..]);
      s := [a[0]] + rest;
      assert s[1..] == rest;
    } else if Length(a[1..], b) >= Length(a, b[1..]) {
      s := Attained(a[1..], b);
    } else {
      s := Attained(a, b[1..]);
    }
  }

  /** The recurrence computes the length of a longest common subsequence, and nothing else is one. */
  lemma {:induction false} LengthIsLongest<T(!new)>(a: seq<T>, b: seq<T>, n: nat)
    ensures IsLongest(n, a, b) <==> n == Length(a, b)
  {
    var s := Attained(a, b);
    forall t | Common(t, a, b) ensures |t| <= Length(a, b) { Bound(t, a, b); }
    if IsLongest(n, a, b) {
      assert |s| <= n;
    }
  }

  lemma {:induction false} AppendBoth<T>(s: seq<T>, a: seq<T>, y: T)
    requires Subsequence(s, a)
    ensures Subsequence(s + [y], a + [y])
  {
    if a == [] {
      assert s + [y] == [y] && a + [y] == [y];
    } else {
      assert (a + [y])[1..] == a[1..] + [y];
      if s != [] && s[0] == a[0] && Subsequence(s[1..], a[1..]) {
        AppendBoth(s[1..], a[1..], y);
        assert (s + [y])[1..] == s[1..] + [y];
      } else {
        AppendBoth(s, a[1..], y);
      }
    }
  }

  lemma {:induction false} DropLast<T>(s: seq<T>, a: seq<T>, y: T)
    requires s != [] && Subsequence(s, a + [y])
    ensures Subsequence(s[..|s| - 1], a)
  {
    var front := s[..|s| - 1];
    if a == [] {
      var rest := (a + [y])[1..];
      assert rest == [];
      assert !Subsequence(s, rest);
      assert Subsequence(s[1..], rest);
      assert |s| == 1;
    } else {
      assert (a + [y])[1..] == a[1..] + [y];
      if s[0] == a[0] && Subsequence(s[1..], a[1..] + [y]) {
        if |s| > 1 {
          DropLast(s[1..], a[1..], y);
          assert s[1..][..|s| - 2] == front[1..];
        }
      } else {
        DropLast(s, a[1..], y);
        SkipHead(front, a);
      }
    }
  }

  lemma {:induction false} AppendSame<T>(a: seq<T>, b: seq<T>, y: T)
    ensures Length(a + [y], b + [y]) == Length(a, b) + 1
  {
    var s := Attained(a, b);
    AppendBoth(s, a, y);
    AppendBoth(s, b, y);
    Bound(s + [y], a + [y], b + [y]);
    var t := Attained(a + [y], b + [y]);
    DropLast(t, a, y);
    DropLast(t, b, y);
    Bound(t[..|t| - 1], a, b);
  }

  lemma {:induction false} PrependSame<T>(x: seq<T>, a: seq<T>, b: seq<T>)
    ensures Length(x + a, x + b) == |x| + Length(a, b)
  {
    if x == [] {
      assert x + a == a && x + b == b;
    } else {
      assert (x + a)[1..] == x[1..] + a && (x + b)[1..] == x[1..] + b;
      PrependSame(x[1..], a, b);
    }
  }

  lemma {:induction false} AppendSameAll<T>(a: seq<T>, b: seq<T>, y: seq<T>)
    ensures Length(a + y, b + y) == Length(a, b) + |y|
    decreases |y|
  {
    if y == [] {
      assert a + y == a && b + y == b;
    } else {
      AppendSame(a, b, y[0]);
      AppendSameAll(a + [y[0]], b + [y[0]], y[1..]);
      assert a + y == a + [y[0]] + y[1..] && b + y == b + [y[0]] + y[1..];
    }
  }

  /** Trimming an agreeing head and tail takes exactly their lengths off. */
  lemma {:induction false} Trim<T>(x: seq<T>, a: seq<T>, b: seq<T>, y: seq<T>)
    ensures Length(x + a + y, x + b + y) == |x| + Length(a, b) + |y|
  {
    AppendSameAll(x + a, x + b, y);
    PrependSame(x, a, b);
  }

  lemma {:induction false} Diagonal<T>(a: seq<T>)
    ensures Length(a, a) == |a|
  {
    if a != [] { Diagonal(a[1..]); }
  }

  lemma {:induction false} LengthWithin<T>(a: seq<T>, b: seq<T>)
    ensures Length(a, b) <= |a| && Length(a, b) <= |b|
    decreases |a| + |b|
  {
    if a == [] || b == [] {
    } else if a[0] == b[0] {
      LengthWithin(a[1..], b[1..]);
    } else {
      LengthWithin(a[1..], b);
      LengthWithin(a, b[1..]);
    }
  }
}
