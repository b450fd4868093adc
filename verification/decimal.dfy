/**
 * Decimal decomposition of a natural number into a fixed number of digits,
 * most significant first, and the positional value that reads the digits back.
 */
module Decimal {

  /** 10^n. */
  function Pow10(n: nat): (p: nat)
    ensures p >= 1
  {
    if n == 0 then 1 else 10 * Pow10(n - 1)
  }

  /** True when every element is a decimal digit. */
  predicate AllDigits(ds: seq<nat>)
  {
    forall i :: 0 <= i < |ds| ==> ds[i] <= 9
  }

  /**
   * The `width` least significant decimal digits of n, most significant first:
   * the last digit is n % 10 and the rest are the digits of n / 10.
   */
  function Digits(n: nat, width: nat): (ds: seq<nat>)
    ensures |ds| == width
    ensures AllDigits(ds)
  {
    if width == 0 then [] else Digits(n / 10, width - 1) + [n % 10]
  }

  /** The positional value of a most-significant-first digit sequence. */
  function Value(ds: seq<nat>): (v: nat)
    ensures AllDigits(ds) ==> v < Pow10(|ds|)
  {
    if ds == [] then 0 else 10 * Value(ds[..|ds| - 1]) + ds[|ds| - 1]
  }

  /** Reading back the digits of a number that fits in `width` digits recovers it. */
  lemma {:induction false} ValueOfDigits(n: nat, width: nat)
    requires n < Pow10(width)
    ensures Value(Digits(n, width)) == n
  {
    if width > 0 {
      ValueOfDigits(n / 10, width - 1);
      var ds := Digits(n, width);
      assert ds[..|ds| - 1] == Digits(n / 10, width - 1);
    }
  }

  /** Decomposing the value of a digit sequence gives the same digits back. */
  lemma {:induction false} DigitsOfValue(ds: seq<nat>)
    requires AllDigits(ds)
    ensures Digits(Value(ds), |ds|) == ds
  {
    if ds != [] {
      var init := ds[..|ds| - 1];
      assert AllDigits(init) by {
        forall i | 0 <= i < |init| ensures init[i] <= 9 {
          assert init[i] == ds[i];
        }
      }
      DigitsOfValue(init);
      var v, d := Value(init), ds[|ds| - 1];
      assert Value(ds) == 10 * v + d;
      assert (10 * v + d) / 10 == v && (10 * v + d) % 10 == d;
      assert ds == init + [d];
    }
  }

  /** For four digits, the positional value is d0*1000 + d1*100 + d2*10 + d3. */
  lemma FourDigitValue(ds: seq<nat>)
    requires |ds| == 4
    ensures Value(ds) == ds[0] * 1000 + ds[1] * 100 + ds[2] * 10 + ds[3]
  {
    var a := Value(ds[..1]);
    var b := Value(ds[..2]);
    var c := Value(ds[..3]);
    assert a == ds[0] by {
      assert ds[..1][..0] == [];
    }
    assert b == 10 * a + ds[1] by {
      assert ds[..2][..1] == ds[..1];
    }
    assert c == 10 * b + ds[2] by {
      assert ds[..3][..2] == ds[..2];
    }
    assert Value(ds) == 10 * c + ds[3] by {
      assert ds[..3] == ds[..|ds| - 1];
    }
  }
}
