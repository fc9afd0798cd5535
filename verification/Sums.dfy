/** Sums over finite sets. */
module Sums {
  ghost function Total<K(!new)>(ks: set<K>, f: K -> nat): nat {
    if ks == {} then 0 else var k :| k in ks; f(k) + Total(ks - {k}, f)
  }

  /** A sum may be taken starting from any element. */
  lemma {:induction false} TotalSplit<K(!new)>(ks: set<K>, f: K -> nat, k: K)
    requires k in ks
    ensures Total(ks, f) == f(k) + Total(ks - {k}, f)
  {
    var k0 :| k0 in ks && Total(ks, f) == f(k0) + Total(ks - {k0}, f);
    if k0 == k {
    } else {
      TotalSplit(ks - {k0}, f, k);
      TotalSplit(ks - {k}, f, k0);
      assert ks - {k0} - {k} == ks - {k} - {k0};
    }
  }

  lemma {:induction false} TotalSame<K(!new)>(ks: set<K>, f: K -> nat, g: K -> nat)
    requires forall k | k in ks :: f(k) == g(k)
    ensures Total(ks, f) == Total(ks, g)
  {
    if ks == {} {
    } else {
      var k :| k in ks;
      TotalSplit(ks, f, k);
      TotalSplit(ks, g, k);
      TotalSame(ks - {k}, f, g);
    }
  }

  lemma OneMoreShare(cap: nat, n: nat)
    ensures cap * (n + 1) == cap * n + cap
  {
  }

  lemma {:induction false} TotalBound<K(!new)>(ks: set<K>, f: K -> nat, cap: nat)
    requires forall k | k in ks :: f(k) <= cap
    ensures Total(ks, f) <= cap * |ks|
  {
    if ks == {} {
    } else {
      var k :| k in ks;
      TotalSplit(ks, f, k);
      TotalBound(ks - {k}, f, cap);
      OneMoreShare(cap, |ks - {k}|);
    }
  }

  /** Changing one summand, possibly a new one, changes the sum by as much. */
  lemma TotalReplace<K(!new)>(ks: set<K>, f: K -> nat, g: K -> nat, k: K)
    requires forall j | j in ks && j != k :: f(j) == g(j)
    ensures Total(ks + {k}, g) == Total(ks, f) + g(k) - if k in ks then f(k) else 0
  {
    TotalSplit(ks + {k}, g, k);
    assert ks + {k} - {k} == ks - {k};
    TotalSame(ks - {k}, f, g);
    if k in ks {
      TotalSplit(ks, f, k);
    } else {
      assert ks - {k} == ks;
    }
  }

  /** Raising one summand by one, possibly a new one, raises the sum by one. */
  lemma TotalBump<K(!new)>(ks: set<K>, f: K -> nat, g: K -> nat, k: K)
    requires forall j | j in ks && j != k :: f(j) == g(j)
    requires g(k) == (if k in ks then f(k) else 0) + 1
    ensures Total(ks + {k}, g) == Total(ks, f) + 1
  {
    TotalReplace(ks, f, g, k);
  }

  /** Adding an element that counts nothing leaves the sum as it is. */
  lemma TotalExtend<K(!new)>(ks: set<K>, f: K -> nat, g: K -> nat, k: K)
    requires forall j | j in ks :: f(j) == g(j)
    requires k !in ks ==> g(k) == 0
    ensures Total(ks + {k}, g) == Total(ks, f)
  {
    TotalSame(ks, f, g);
    if k in ks {
      assert ks + {k} == ks;
    } else {
      TotalSplit(ks + {k}, g, k);
      assert ks + {k} - {k} == ks;
    }
  }
}
