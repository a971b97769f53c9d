/** Numbers and sequences: what several models share. */
module Basics {

  function Min(a: nat, b: nat): (m: nat)
    ensures m <= a && m <= b && (m == a || m == b)
  {
    if a < b then a else b
  }

  lemma Regroup<T>(a: seq<T>, b: seq<T>, c: seq<T>)
    ensures a + (b + c) == a + b + c
  {
  }

  lemma HeadTail<T>(xs: seq<T>)
    requires xs != []
    ensures xs == [xs[0]] + xs[1..]
  {
  }

  lemma InitLast<T>(xs: seq<T>)
    requires xs != []
    ensures xs == xs[..|xs| - 1] + [xs[|xs| - 1]]
  {
  }

  lemma Empty<T>(xs: seq<T>)
    ensures xs + [] == xs && [] + xs == xs
  {
  }

  /** `sub` is `whole` with some elements left out. */
  predicate Subsequence<T(==)>(sub: seq<T>, whole: seq<T>) {
    if sub == [] then true
    else whole != [] && (
           (sub[|sub| - 1] == whole[|whole| - 1] && Subsequence(sub[..|sub| - 1], whole[..|whole| - 1]))
           || Subsequence(sub, whole[..|whole| - 1]))
  }

  lemma {:induction false} SubsequenceSkips<T>(sub: seq<T>, whole: seq<T>, extra: seq<T>)
    requires Subsequence(sub, whole)
    ensures Subsequence(sub, whole + extra)
    decreases extra
  {
    if extra == [] {
      assert whole + extra == whole;
    } else {
      var e := extra[..|extra| - 1];
      SubsequenceSkips(sub, whole, e);
      assert (whole + extra)[..|whole + extra| - 1] == whole + e;
    }
  }

  lemma {:induction false} SubsequenceKeeps<T>(sub: seq<T>, whole: seq<T>, extra: seq<T>)
    requires Subsequence(sub, whole)
    ensures Subsequence(sub + extra, whole + extra)
    decreases extra
  {
    if extra == [] {
      assert whole + extra == whole && sub + extra == sub;
    } else {
      var e := extra[..|extra| - 1];
      SubsequenceKeeps(sub, whole, e);
      assert (whole + extra)[..|whole + extra| - 1] == whole + e;
      assert (sub + extra)[..|sub + extra| - 1] == sub + e;
    }
  }

  lemma {:induction false} SubsequenceLength<T>(sub: seq<T>, whole: seq<T>)
    requires Subsequence(sub, whole)
    ensures |sub| <= |whole|
    decreases |whole|
  {
    if sub != [] {
      if sub[|sub| - 1] == whole[|whole| - 1] && Subsequence(sub[..|sub| - 1], whole[..|whole| - 1]) {
        SubsequenceLength(sub[..|sub| - 1], whole[..|whole| - 1]);
      } else {
        SubsequenceLength(sub, whole[..|whole| - 1]);
      }
    }
  }

  lemma {:induction false} SubsequenceTrans<T>(a: seq<T>, b: seq<T>, c: seq<T>)
    requires Subsequence(a, b) && Subsequence(b, c)
    ensures Subsequence(a, c)
    decreases |b| + |c|
  {
    if a != [] {
      var a', b', c' := a[..|a| - 1], b[..|b| - 1], c[..|c| - 1];
      if b[|b| - 1] == c[|c| - 1] && Subsequence(b', c') {
        if a[|a| - 1] == b[|b| - 1] && Subsequence(a', b') {
          SubsequenceTrans(a', b', c');
        } else {
          SubsequenceTrans(a, b', c');
        }
      } else {
        SubsequenceTrans(a, b, c');
      }
    }
  }

  lemma NextQuotient(n: nat, d: nat)
    requires d > 0
    ensures if n % d + 1 == d then (n + 1) / d == n / d + 1 && (n + 1) % d == 0
            else (n + 1) / d == n / d && (n + 1) % d == n % d + 1
  {
    var q, r := n / d, n % d;
    assert n == q * d + r;
    if r + 1 == d {
      QuotientIs(n + 1, d, q + 1, 0);
    } else {
      QuotientIs(n + 1, d, q, r + 1);
    }
  }

  lemma QuotientIs(n: nat, d: nat, q: nat, r: nat)
    requires r < d && n == q * d + r
    ensures n / d == q && n % d == r
  {
    var q', r' := n / d, n % d;
    assert n == q' * d + r';
    if q' < q {
      Scale(q' + 1, q, d);
    } else if q' > q {
      Scale(q + 1, q', d);
    }
  }

  lemma Scale(a: int, b: int, d: nat)
    requires a <= b
    ensures a * d <= b * d
  {
  }

  lemma Division(x: nat, d: nat)
    requires d > 0
    ensures x == x / d * d + x % d
  {
  }
}
