/** A path too long to be kept whole, whose name is not its own name. */
module LongPaths {
  import opened Digits
  import opened Utf16
  import opened ProjectPath

  /** 201 times `a`: one more unit than is kept. */
  const LONG_PATH: string := seq(KEPT + 1, _ => 'a')

  function As(n: nat): (u: seq<nat>)
    ensures |u| == n && forall k | 0 <= k < n :: u[k] == 97
  {
    seq(n, _ => 97)
  }

  /** Thirty times the modulus: the sum of a geometric series divides by 30. */
  const N := 30 * M

  lemma {:induction false} Geometric(n: nat)
    ensures 30 * PowerSum(As(n)) == 97 * (Pow(31, n) - 1)
  {
    if n > 0 {
      Geometric(n - 1);
      assert As(n) == As(n - 1) + [97];
      PowerSumAppend(As(n - 1), 97);
    }
  }

  lemma {:induction false} PowAdd(m: nat, n: nat)
    ensures Pow(31, m + n) == Pow(31, m) * Pow(31, n)
  {
    if m > 0 {
      PowAdd(m - 1, n);
      assert Pow(31, m + n) == 31 * Pow(31, m - 1 + n);
      Grouped(Pow(31, m - 1), Pow(31, n));
    }
  }

  lemma Grouped(a: nat, b: nat)
    ensures 31 * (a * b) == (31 * a) * b
  {
  }

  lemma PowDouble(n: nat, p: nat, t: nat, q: nat, r: nat) returns (u: nat)
    requires Pow(31, n) == p + N * t && p * p == r + N * q
    ensures Pow(31, 2 * n) == r + N * u
  {
    PowAdd(n, n);
    SquareSplits(p, t);
    u := q + 2 * (p * t) + N * (t * t);
  }

  lemma SquareSplits(p: nat, t: nat)
    ensures (p + N * t) * (p + N * t) == p * p + N * (2 * (p * t) + N * (t * t))
  {
  }

  lemma PowNext(n: nat, p: nat, t: nat, q: nat, r: nat) returns (u: nat)
    requires Pow(31, n) == p + N * t && 31 * p == r + N * q
    ensures Pow(31, n + 1) == r + N * u
  {
    u := q + 31 * t;
  }

  /** The power the hash of the path takes, square by square. */
  lemma LongPower() returns (t: nat)
    ensures Pow(31, KEPT + 1) == 40365984031 + N * t
  {
    hide Pow;
    OneTime();
    t := 0;
    t := PowDouble(1, 31, t, 0, 961);
    t := PowNext(2, 961, t, 0, 29791);
    t := PowDouble(3, 29791, t, 0, 887503681);
    t := PowDouble(6, 887503681, t, 6113067, 98490844801);
    t := PowDouble(12, 98490844801, t, 75285373485, 58052332801);
    t := PowNext(24, 58052332801, t, 13, 124585071391);
    t := PowDouble(25, 124585071391, t, 120462228959, 35492928961);
    t := PowDouble(50, 35492928961, t, 9776931304, 53033520001);
    t := PowDouble(100, 53033520001, t, 21828293829, 5458548481);
    t := PowNext(200, 5458548481, t, 1, 40365984031);
  }

  lemma OneTime()
    ensures Pow(31, 1) == 31
  {
    assert Pow(31, 0) == 1;
  }

  lemma LongPathResidue()
    ensures PowerSum(As(KEPT + 1)) % M == 1667662817
  {
    hide Pow, PowerSum, As;
    Geometric(KEPT + 1);
    var t := LongPower();
    assert PowerSum(As(KEPT + 1)) == 97 * 1345532801 + M * (97 * t);
  }

  function Parity(units: seq<nat>): nat {
    if units == [] then 0 else (Parity(units[..|units| - 1]) + units[|units| - 1]) % 2
  }

  lemma {:induction false} SumParity(units: seq<nat>)
    ensures PowerSum(units) % 2 == Parity(units)
  {
    if units != [] {
      var front, last := units[..|units| - 1], units[|units| - 1];
      SumParity(front);
      assert units == front + [last];
      PowerSumAppend(front, last);
      OddTimes(PowerSum(front), last);
    }
  }

  lemma OddTimes(p: nat, u: nat)
    ensures (31 * p + u) % 2 == (p % 2 + u) % 2
  {
    SameParity(p % 2 + u, 15 * p + p / 2);
  }

  lemma {:induction false} ParityConcat(u: seq<nat>, v: seq<nat>)
    ensures Parity(u + v) == (Parity(u) + Parity(v)) % 2
  {
    if v == [] {
      assert u + v == u;
    } else {
      var front := v[..|v| - 1];
      ParityConcat(u, front);
      assert (u + v)[..|u + v| - 1] == u + front;
    }
  }

  lemma {:induction false} ParityOfAs(n: nat)
    ensures Parity(As(n)) == n % 2
  {
    if n > 0 {
      ParityOfAs(n - 1);
      assert As(n)[..n - 1] == As(n - 1);
    }
  }

  lemma WrapParity(x: nat)
    ensures Magnitude(Wrap(x)) % 2 == x % 2
  {
    var q, r := x / M, x % M;
    SameParity(r, 0x8000_0000 * q);
    if r >= 0x8000_0000 {
      SameParity(M - r, r - 0x8000_0000);
    }
  }

  lemma SameParity(r: nat, k: nat)
    ensures (r + 2 * k) % 2 == r % 2
  {
  }

  lemma LongPathName()
    ensures Units(LONG_PATH) == As(KEPT + 1)
    ensures Encoded(LONG_PATH) == LONG_PATH[..KEPT] + "-rkvsv5"
  {
    hide Render, Units;
    UnitsOfPlain(LONG_PATH);
    assert Units(LONG_PATH) == As(KEPT + 1);
    LongPathResidue();
    assert Wrap(PowerSum(As(KEPT + 1))) == 1667662817;
    SuffixOfLongPath();
    assert Sanitized(As(KEPT + 1))[..KEPT] == LONG_PATH[..KEPT];
  }

  lemma SuffixOfLongPath()
    ensures Render(1667662817, 36) == "rkvsv5"
  {
  }

  /** So encoding is not idempotent on long paths, which nothing promises: the name of this one is hashed to
      another suffix, because its hash is even and the path's is odd. */
  lemma LongNameIsRenamed()
    ensures |Units(LONG_PATH)| == KEPT + 1 && Encoded(Encoded(LONG_PATH)) != Encoded(LONG_PATH)
  {
    hide Render, Wrap, PowerSum, Units, Magnitude, Encoded;
    LongPathName();
    var name, units := Encoded(LONG_PATH), Units(Encoded(LONG_PATH));
    UnitsOfPlain(name);
    var suffix: seq<nat> := [45, 114, 107, 118, 115, 118, 53];
    assert units == As(KEPT) + suffix;
    ParityConcat(As(KEPT), suffix);
    ParityOfAs(KEPT);
    ParityOfAs(KEPT + 1);
    SuffixParity();
    SumParity(units);
    SumParity(As(KEPT + 1));
    WrapParity(PowerSum(units));
    WrapParity(PowerSum(As(KEPT + 1)));
    EncodingTwice(LONG_PATH);
  }

  lemma ParityNext(units: seq<nat>, u: nat) returns (more: seq<nat>)
    ensures more == units + [u] && Parity(more) == (Parity(units) + u) % 2
  {
    more := units + [u];
    assert more[..|units|] == units;
  }

  lemma SuffixParity()
    ensures Parity([45, 114, 107, 118, 115, 118, 53]) == 0
  {
    var units: seq<nat> := [];
    assert Parity(units) == 0;
    hide Parity;
    units := ParityNext(units, 45);
    units := ParityNext(units, 114);
    units := ParityNext(units, 107);
    units := ParityNext(units, 118);
    units := ParityNext(units, 115);
    units := ParityNext(units, 118);
    units := ParityNext(units, 53);
    assert units == [45, 114, 107, 118, 115, 118, 53];
  }
}
