/** Sizes of finite sets. */
module FiniteSets {

  lemma Member<T>(s: set<T>) returns (x: T)
    requires s != {}
    ensures x in s
  {
    x :| x in s;
  }

  lemma SubsetSize<T>(a: set<T>, b: set<T>)
    requires a <= b
    ensures |a| <= |b|
    ensures |a| == |b| ==> a == b
  {
    assert b == a + (b - a);
  }

  lemma {:induction false} RowSize<T, U>(x: T, b: set<U>)
    ensures |set y | y in b :: (x, y)| == |b|
  {
    var row := set y | y in b :: (x, y);
    if b == {} {
      assert row == {};
    } else {
      var y :| y in b;
      RowSize(x, b - {y});
      var smaller := set u | u in b - {y} :: (x, u);
      assert row == smaller + {(x, y)} && (x, y) !in smaller;
    }
  }

  ghost function Product<T(!new), U(!new)>(a: set<T>, b: set<U>): set<(T, U)> {
    set x, y | x in a && y in b :: (x, y)
  }

  lemma ProductGrows<T(!new), U(!new)>(rest: set<T>, x: T, b: set<U>)
    requires x !in rest
    ensures var row := set y | y in b :: (x, y);
            Product(rest + {x}, b) == row + Product(rest, b) && row !! Product(rest, b)
  {
  }

  lemma ProductSizeGrows<T(!new), U(!new)>(rest: set<T>, x: T, b: set<U>, n: nat)
    requires x !in rest && |Product(rest, b)| == n
    ensures |Product(rest + {x}, b)| == n + |b|
  {
    RowSize(x, b);
    ProductGrows(rest, x, b);
  }

  lemma {:induction false} ProductSize<T(!new), U(!new)>(a: set<T>, b: set<U>)
    ensures |Product(a, b)| == |a| * |b|
    decreases a
  {
    if a == {} {
      assert Product(a, b) == {};
    } else {
      var x :| x in a;
      var rest := a - {x};
      var (m, n) := (|rest|, |b|);
      ProductSize(rest, b);
      ProductSizeGrows(rest, x, b, m * n);
      assert a == rest + {x} && |a| == m + 1;
      assert (m + 1) * n == m * n + n;
    }
  }
}
