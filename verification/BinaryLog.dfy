/** floor(log10(2^e)) by one multiplication: exact on the exponent range of binary64. */
module BinaryLog {
  import opened Powers
  import opened Reals

  /** Integer division as C++ does it: truncation toward zero. */
  function TruncDiv(a: int, b: nat): int
    requires b > 0
  {
    if a >= 0 then a / b else -((-a) / b)
  }

  function TruncRem(a: int, b: nat): int
    requires b > 0
  {
    a - TruncDiv(a, b) * b
  }

  function FloorLog10Pow2(exponent: int): int {
    var product := exponent * 78913;
    TruncDiv(product, 262144) - (if product < 0 && TruncRem(product, 262144) != 0 then 1 else 0)
  }

  lemma CorrectedDivisionIsFloor(e: int)
    ensures FloorLog10Pow2(e) == e * 78913 / 262144
  {}

  lemma FloorLog10Pow2Monotone(e: int, f: int)
    requires e <= f
    ensures FloorLog10Pow2(e) <= FloorLog10Pow2(f)
  {
    CorrectedDivisionIsFloor(e);
    CorrectedDivisionIsFloor(f);
  }

  /** 10^205 < 2^681, the lower certificate, with the common factor 2^205 left out. */
  lemma FiveBelowTwo()
    ensures Pow(5, 205) < Pow(2, 476)
  {
    hide Pow;
    Squares5();
    Squares2();
  }

  /** 2^485 < 10^146, the upper certificate, with the common factor 2^146 left out. */
  lemma TwoBelowFive()
    ensures Pow(2, 339) < Pow(5, 146)
  {
    hide Pow;
    Squares5();
    Squares2();
  }

  lemma Squares5()
    ensures Pow(5, 146)
            == 1121038771459853656738983666631932905024209553501212617405654627111832866148688481189310550689697265625
    ensures Pow(5, 205)
            == 194469227433160678348252001680628882518445380272536472909409894212178088563605732536998275722678550529905205923597577566397376358509063720703125
  {
    assert Pow(5, 9) == 1953125;
    assert Pow(5, 10) == 9765625;
    assert Pow(5, 12) == 244140625;
    assert Pow(5, 13) == 1220703125;
    hide Pow;
    PowAdd(5, 9, 9);
    assert Pow(5, 18) == 3814697265625;
    PowAdd(5, 9, 10);
    assert Pow(5, 19) == 19073486328125;
    PowAdd(5, 12, 13);
    assert Pow(5, 25) == 298023223876953125;
    PowAdd(5, 13, 13);
    assert Pow(5, 26) == 1490116119384765625;
    PowAdd(5, 18, 18);
    assert Pow(5, 36) == 14551915228366851806640625;
    PowAdd(5, 18, 19);
    assert Pow(5, 37) == 72759576141834259033203125;
    PowAdd(5, 25, 26);
    assert Pow(5, 51) == 444089209850062616169452667236328125;
    PowAdd(5, 26, 26);
    assert Pow(5, 52) == 2220446049250313080847263336181640625;
    PowAdd(5, 36, 37);
    assert Pow(5, 73) == 1058791184067875423835403125849552452564239501953125;
    PowAdd(5, 51, 51);
    assert Pow(5, 102) == 197215226305252951352932141320696557418301608777255751192569732666015625;
    PowAdd(5, 51, 52);
    assert Pow(5, 103) == 986076131526264756764660706603482787091508043886278755962848663330078125;
    PowAdd(5, 73, 73);
    assert Pow(5, 146)
        == 1121038771459853656738983666631932905024209553501212617405654627111832866148688481189310550689697265625;
    PowAdd(5, 102, 103);
    assert Pow(5, 205)
        == 194469227433160678348252001680628882518445380272536472909409894212178088563605732536998275722678550529905205923597577566397376358509063720703125;
  }

  lemma Squares2()
    ensures Pow(2, 339)
            == 1119872371088902105278721140284222139060822748617324767449994550481895935590080472690438746635803557888
    ensures Pow(2, 476)
            == 195109284394749514461349826862072894109287383916560696928697309976585733676235351257519131441468248197489183195087913930965498479955517831643136
  {
    assert Pow(2, 7) == 128;
    assert Pow(2, 8) == 256;
    assert Pow(2, 10) == 1024;
    assert Pow(2, 11) == 2048;
    hide Pow;
    PowAdd(2, 7, 7);
    assert Pow(2, 14) == 16384;
    PowAdd(2, 7, 8);
    assert Pow(2, 15) == 32768;
    PowAdd(2, 10, 11);
    assert Pow(2, 21) == 2097152;
    PowAdd(2, 11, 11);
    assert Pow(2, 22) == 4194304;
    PowAdd(2, 14, 15);
    assert Pow(2, 29) == 536870912;
    PowAdd(2, 15, 15);
    assert Pow(2, 30) == 1073741824;
    PowAdd(2, 21, 21);
    assert Pow(2, 42) == 4398046511104;
    PowAdd(2, 21, 22);
    assert Pow(2, 43) == 8796093022208;
    PowAdd(2, 29, 30);
    assert Pow(2, 59) == 576460752303423488;
    PowAdd(2, 30, 30);
    assert Pow(2, 60) == 1152921504606846976;
    PowAdd(2, 42, 42);
    assert Pow(2, 84) == 19342813113834066795298816;
    PowAdd(2, 42, 43);
    assert Pow(2, 85) == 38685626227668133590597632;
    PowAdd(2, 59, 60);
    assert Pow(2, 119) == 664613997892457936451903530140172288;
    PowAdd(2, 84, 85);
    assert Pow(2, 169) == 748288838313422294120286634350736906063837462003712;
    PowAdd(2, 85, 85);
    assert Pow(2, 170) == 1496577676626844588240573268701473812127674924007424;
    PowAdd(2, 119, 119);
    assert Pow(2, 238) == 441711766194596082395824375185729628956870974218904739530401550323154944;
    PowAdd(2, 169, 170);
    assert Pow(2, 339)
        == 1119872371088902105278721140284222139060822748617324767449994550481895935590080472690438746635803557888;
    PowAdd(2, 238, 238);
    assert Pow(2, 476)
        == 195109284394749514461349826862072894109287383916560696928697309976585733676235351257519131441468248197489183195087913930965498479955517831643136;
  }

  lemma TenIsTwoTimesFive(n: nat)
    ensures Pow(10, n) == Pow(2, n) * Pow(5, n)
  {
    PowOfProduct(2, 5, n);
  }

  lemma LowerCertificate()
    ensures Pow(10, 205) < Pow(2, 681)
  {
    FiveBelowTwo();
    hide Pow;
    TenIsTwoTimesFive(205);
    PowAdd(2, 205, 476);
    PowPositive(2, 205);
    MulMono(Pow(5, 205), Pow(2, 476), Pow(2, 205));
  }

  lemma UpperCertificate()
    ensures Pow(2, 485) < Pow(10, 146)
  {
    TwoBelowFive();
    hide Pow;
    TenIsTwoTimesFive(146);
    PowAdd(2, 146, 339);
    PowPositive(2, 146);
    MulMono(Pow(2, 339), Pow(5, 146), Pow(2, 146));
  }

  /** If k/n is at most 205/681 then 10^k <= 2^n, strictly unless both are zero. */
  lemma TenBelowTwo(k: nat, n: nat)
    requires 681 * k <= 205 * n
    ensures Pow(10, k) <= Pow(2, n)
    ensures n > 0 ==> Pow(10, k) < Pow(2, n)
  {
    LowerCertificate();
    hide Pow;
    PowOfPow(10, k, 681);
    PowOfPow(2, n, 681);
    PowOfPow(10, 205, n);
    PowOfPow(2, 681, n);
    PowGrows(10, k * 681, 205 * n);
    PowBaseGrows(Pow(10, 205), Pow(2, 681), n);
    assert n * 681 == 681 * n;
    BaseOrder(Pow(10, k), Pow(2, n), 681);
  }

  /** If n/k is at most 485/146 then 2^n <= 10^k, strictly unless both are zero. */
  lemma TwoBelowTen(n: nat, k: nat)
    requires 146 * n <= 485 * k
    ensures Pow(2, n) <= Pow(10, k)
    ensures k > 0 ==> Pow(2, n) < Pow(10, k)
  {
    UpperCertificate();
    hide Pow;
    PowOfPow(2, n, 146);
    PowOfPow(10, k, 146);
    PowOfPow(2, 485, k);
    PowOfPow(10, 146, k);
    PowGrows(2, n * 146, 485 * k);
    PowBaseGrows(Pow(2, 485), Pow(10, 146), k);
    assert k * 146 == 146 * k;
    BaseOrder(Pow(2, n), Pow(10, k), 146);
  }

  /** Roots keep the order. */
  lemma BaseOrder(a: nat, b: nat, n: nat)
    requires n > 0
    ensures Pow(a, n) <= Pow(b, n) ==> a <= b
    ensures Pow(a, n) < Pow(b, n) ==> a < b
  {
    hide Pow;
    if b < a {
      PowBaseGrows(b, a, n);
    }
  }

  lemma ExpOfNegative(b: nat, e: nat)
    requires b > 0
    ensures Pow(b, e) > 0
    ensures Exp(b, -(e as int)) == 1.0 / Pow(b, e) as real
  {
    PowPositive(b, e);
  }

  /** 78913/262144 is close enough to log10(2): the computed exponent d has 10^d <= 2^e < 10^(d+1). */
  lemma FloorLog10Pow2Exact(e: int)
    requires -1074 <= e <= 1074
    ensures var d := FloorLog10Pow2(e); Exp(10, d) <= Exp(2, e) < Exp(10, d + 1)
  {
    CorrectedDivisionIsFloor(e);
    var d := FloorLog10Pow2(e);
    hide Pow, FloorLog10Pow2;
    if e >= 0 {
      TenBelowTwo(d, e);
      TwoBelowTen(e, d + 1);
    } else {
      TwoBelowTen(-e, -d);
      TenBelowTwo(-d - 1, -e);
      PowPositive(10, -d);
      PowPositive(10, -d - 1);
      PowPositive(2, -e);
      InverseOrder(Pow(2, -e) as real, Pow(10, -d) as real);
      InverseOrder(Pow(10, -d - 1) as real, Pow(2, -e) as real);
      ExpOfNegative(10, -d);
      ExpOfNegative(10, -d - 1);
      ExpOfNegative(2, -e);
    }
  }

  lemma InverseOrder(x: real, y: real)
    requires 0.0 < x <= y
    ensures 1.0 / y <= 1.0 / x
    ensures x < y ==> 1.0 / y < 1.0 / x
  {
    assert x * (1.0 / x) == 1.0 && y * (1.0 / y) == 1.0;
    if 1.0 / y > 1.0 / x {
      RMulCompare(1.0 / x, 1.0 / y, y);
      RMulCompare(x, y, 1.0 / x);
    } else if x < y && 1.0 / y == 1.0 / x {
      RMulCompare(x, y, 1.0 / x);
    }
  }
}
