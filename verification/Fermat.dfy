/**
 Fermat's little theorem: a to the power m - 1 is one, where every non-zero residue modulo m can be
 inverted and a is one. Multiplying by a permutes the residues 1 to m - 1, so both products agree.
 */
module FermatTheorem {
  import opened Arith
  import opened EdwardsAlgebra
  import opened EdwardsGroup
  import opened SquareRoots

  function Factorial(n: nat): nat {
    if n == 0 then 1 else n * Factorial(n - 1)
  }

  /** The residues of a, 2 a, .., n a. */
  ghost function Images(a: int, n: nat, m: int): set<int>
    requires m > 0
  {
    set j: int | 0 < j <= n :: a * j % m
  }

  ghost function ImageProduct(a: int, n: nat, m: int): int
    requires m > 0
  {
    if n == 0 then 1 else (a * n % m) * ImageProduct(a, n - 1, m)
  }

  // ---------------------------------------------------------------- products over sets

  /** The product of the elements of s from 1 to n. */
  ghost function Product(s: set<int>, n: nat): int {
    if n == 0 then 1 else (if n in s then n else 1) * Product(s, n - 1)
  }

  /** Any element can be taken out first. */
  lemma {:induction false} ProductOf(s: set<int>, x: int, n: nat)
    requires x in s && 0 < x <= n
    ensures Product(s, n) == x * Product(s - {x}, n)
  {
    if x == n {
      ProductWithout(s, n, n - 1);
    } else {
      ProductOf(s, x, n - 1);
      var f, r := if n in s then n else 1, Product(s - {x}, n - 1);
      assert f * (x * r) == x * (f * r);
    }
  }

  lemma {:induction false} ProductWithout(s: set<int>, x: int, n: nat)
    requires n < x
    ensures Product(s, n) == Product(s - {x}, n)
  {
    if n > 0 {
      ProductWithout(s, x, n - 1);
    }
  }

  lemma {:induction false} FullProduct(s: set<int>, n: nat)
    requires forall j :: 0 < j <= n ==> j in s
    ensures Product(s, n) == Factorial(n)
  {
    if n > 0 {
      FullProduct(s, n - 1);
    }
  }

  lemma {:induction false} EmptyProduct(n: nat)
    ensures Product({}, n) == 1
  {
    if n > 0 {
      EmptyProduct(n - 1);
    }
  }

  // ---------------------------------------------------------------- multiplying by a unit

  lemma SmallDifference(i: int, j: int, m: int)
    requires 0 <= i < m && 0 <= j < m && Cong(i, j, m)
    ensures i == j
  {
    CongIffMod(i, j, m);
    DivModUnique(i, 0, i, m);
    DivModUnique(j, 0, j, m);
  }

  /** Different residues have different images. */
  lemma Injective(a: int, i: int, j: int, m: int)
    requires Field(m) && !Cong(a, 0, m) && 0 <= i < m && 0 <= j < m && a * i % m == a * j % m
    ensures i == j
  {
    hide Cong, Field;
    CongIffMod(a * i, a * j, m);
    UnitOf(a, m);
    assert a * i == i * a && a * j == j * a;
    Cancel(i, j, a, Inverse(a, m), m);
    SmallDifference(i, j, m);
  }

  lemma UnitOf(a: int, m: int)
    requires Field(m) && !Cong(a, 0, m)
    ensures m > 1 && Invertible(a, m)
  {
    hide Cong;
  }

  lemma {:induction false} ImagesProduct(a: int, n: nat, e: nat, m: int)
    requires Field(m) && !Cong(a, 0, m) && n <= e && e + 1 == m
    ensures Product(Images(a, n, m), e) == ImageProduct(a, n, m)
  {
    hide Cong, Field;
    UnitOf(a, m);
    if n == 0 {
      assert Images(a, 0, m) == {};
      EmptyProduct(e);
    } else {
      ImagesProduct(a, n - 1, e, m);
      var x, s := a * n % m, Images(a, n, m);
      ImageInside(a, n, m);
      assert x in s;
      forall j | 0 < j <= n - 1 ensures a * j % m != x {
        if a * j % m == x {
          Injective(a, j, n, m);
        }
      }
      assert s - {x} == Images(a, n - 1, m);
      ProductOf(s, x, e);
    }
  }

  lemma {:induction false} ImageProductIs(a: int, n: nat, m: int)
    requires m > 0
    ensures Cong(ImageProduct(a, n, m), Pow(a, n) * Factorial(n), m)
  {
    hide Cong;
    if n == 0 {
      CongRefl(1, m);
    } else {
      ImageProductIs(a, n - 1, m);
      ResidueCong(a * n, m);
      var p, f := Pow(a, n - 1), Factorial(n - 1);
      CongMul(a * n % m, a * n, ImageProduct(a, n - 1, m), p * f, m);
      Interchange(a, n, p, f);
    }
  }

  lemma ResidueCong(x: int, m: int)
    requires m > 0
    ensures Cong(x % m, x, m)
  {
    CongIffMod(x % m, x, m);
    DivModUnique(x % m, 0, x % m, m);
  }

  /** Every non-zero residue is an image. */
  lemma AllImages(a: int, n: nat, m: int)
    requires Field(m) && !Cong(a, 0, m) && n + 1 == m
    ensures forall y :: 0 < y <= n ==> y in Images(a, n, m)
  {
    hide Cong, Field;
    UnitOf(a, m);
    forall y: int | 0 < y <= n ensures y in Images(a, n, m) {
      var j := Preimage(a, y, m);
      assert a * j % m == y;
    }
  }

  lemma ImageInside(a: int, j: int, m: int)
    requires Field(m) && !Cong(a, 0, m) && 0 < j < m
    ensures 0 < a * j % m < m
  {
    hide Cong, Field;
    UnitOf(a, m);
    if a * j % m == 0 {
      assert a * 0 == 0;
      Injective(a, j, 0, m);
    }
  }

  lemma Preimage(a: int, y: int, m: int) returns (j: int)
    requires Field(m) && !Cong(a, 0, m) && 0 < y < m
    ensures 0 < j < m && a * j % m == y
  {
    hide Cong, Field;
    UnitOf(a, m);
    var k := Inverse(a, m);
    j := k * y % m;
    ResidueCong(k * y, m);
    CongScale(a, j, k * y, m);
    assert a * (k * y) == (a * k) * y;
    CongRight(a * k, 1, y, m);
    CongTrans(a * j, (a * k) * y, y, m);
    CongIffMod(a * j, y, m);
    DivModUnique(y, 0, y, m);
    assert j == 0 ==> a * j == 0;
  }

  lemma {:induction false} FactorialUnit(n: nat, m: int)
    requires Field(m) && n < m
    ensures !Cong(Factorial(n), 0, m)
  {
    hide Cong, Field;
    if n == 0 {
      OneNotZero(m);
    } else {
      FactorialUnit(n - 1, m);
      if Cong(n, 0, m) {
        SmallDifference(n, 0, m);
      }
      if Cong(n * Factorial(n - 1), 0, m) {
        ProductZero(n, Factorial(n - 1), m);
      }
    }
  }

  lemma OneNotZero(m: int)
    requires Field(m)
    ensures !Cong(1, 0, m)
  {
    if Cong(1, 0, m) {
      SmallDifference(1, 0, m);
    }
  }

  /** Fermat's little theorem. */
  lemma Fermat(a: int, e: nat, m: int)
    requires Field(m) && !Cong(a, 0, m) && e + 1 == m
    ensures Cong(Pow(a, e), 1, m)
  {
    hide Cong, Field, Images, Product, Factorial, Pow;
    UnitOf(a, m);
    ImagesProduct(a, e, e, m);
    AllImages(a, e, m);
    FullProduct(Images(a, e, m), e);
    ImageProductIs(a, e, m);
    FactorialUnit(e, m);
    var f: int := Factorial(e);
    CongSym(f, Pow(a, e) * f, m);
    UnitOf(f, m);
    Cancel(Pow(a, e), 1, f, Inverse(f, m), m);
  }
}
