/** Numbers written in digits, and the order their writings sort in. */
module Digits {

  function Pow(base: nat, e: nat): (p: nat)
    ensures base > 0 ==> p > 0
  {
    if e == 0 then 1 else base * Pow(base, e - 1)
  }

  /** `0`..`9` then `a`..`z`. */
  function DigitChar(d: nat): char
    requires d < 36
  {
    if d < 10 then '0' + d as char else 'a' + (d - 10) as char
  }

  function DigitValue(c: char): nat {
    if '0' <= c <= '9' then (c - '0') as nat
    else if 'a' <= c <= 'z' then (c - 'a') as nat + 10
    else 0
  }

  /** The usual writing of `n`: no leading zero, and `0` for zero. */
  function Render(n: nat, base: nat): (s: string)
    requires 2 <= base <= 36
  {
    if n < base then [DigitChar(n)]
    else
      Quotient(n, base);
      Render(n / base, base) + [DigitChar(n % base)]
  }

  function Value(s: string, base: nat): nat {
    if s == [] then 0 else Value(s[..|s| - 1], base) * base + DigitValue(s[|s| - 1])
  }

  predicate IsDigits(s: string, base: nat) {
    forall c <- s :: c in "0123456789abcdefghijklmnopqrstuvwxyz" && DigitValue(c) < base
  }

  /** Exactly `w` digits, the low ones of `n`. */
  function FixedWidth(n: nat, w: nat): (s: string)
    ensures |s| == w
  {
    if w == 0 then [] else FixedWidth(n / 10, w - 1) + [DigitChar(n % 10)]
  }

  /** Rust's `{:0w}`: the usual writing, zeros in front up to width `w`. */
  function ZeroPadded(n: nat, w: nat): (s: string) {
    var s := Render(n, 10);
    if |s| >= w then s else Zeros(w - |s|) + s
  }

  function Zeros(k: nat): (s: string)
    ensures |s| == k
  {
    if k == 0 then [] else Zeros(k - 1) + ['0']
  }

  // ----- Order of strings -----

  /** The order `sort` puts strings in: the first difference decides, and a prefix comes first. */
  predicate LexLess(a: string, b: string) {
    |b| > 0 && (|a| == 0 || a[0] < b[0] || (a[0] == b[0] && LexLess(a[1..], b[1..])))
  }

  /** Joining to prefixes of one length: the prefixes are compared first. */
  lemma {:induction false} LexConcat(a: string, x: string, b: string, y: string)
    requires |a| == |b|
    ensures LexLess(a + x, b + y) <==> LexLess(a, b) || (a == b && LexLess(x, y))
    ensures a + x == b + y <==> a == b && x == y
  {
    assert a + x == b + y ==> a == (a + x)[..|a|] == b && x == (a + x)[|a|..] == y;
    if a == [] {
      assert a + x == x && b + y == y;
    } else {
      LexConcat(a[1..], x, b[1..], y);
      assert (a + x)[1..] == a[1..] + x && (b + y)[1..] == b[1..] + y;
      assert a == [a[0]] + a[1..] && b == [b[0]] + b[1..];
    }
  }

  lemma {:induction false} LexIrreflexive(a: string)
    ensures !LexLess(a, a)
  {
    if a != [] {
      LexIrreflexive(a[1..]);
    }
  }

  lemma {:induction false} LexTransitive(a: string, b: string, c: string)
    requires LexLess(a, b) && LexLess(b, c)
    ensures LexLess(a, c)
  {
    if a != [] && a[0] == b[0] == c[0] {
      LexTransitive(a[1..], b[1..], c[1..]);
    }
  }

  lemma {:induction false} LexTotal(a: string, b: string)
    ensures a == b || LexLess(a, b) || LexLess(b, a)
  {
    if a != [] && b != [] && a[0] == b[0] {
      LexTotal(a[1..], b[1..]);
      assert a == [a[0]] + a[1..] && b == [b[0]] + b[1..];
    }
  }

  // ----- Writing and reading back -----

  lemma DigitRoundTrip(d: nat)
    requires d < 36
    ensures DigitValue(DigitChar(d)) == d
    ensures DigitChar(d) in "0123456789abcdefghijklmnopqrstuvwxyz"
  {
    var all := "0123456789abcdefghijklmnopqrstuvwxyz";
    assert DigitChar(d) == all[d];
  }

  lemma {:induction false} RenderReadsBack(n: nat, base: nat)
    requires 2 <= base <= 36
    ensures Value(Render(n, base), base) == n
    ensures IsDigits(Render(n, base), base)
    ensures |Render(n, base)| > 0 && (Render(n, base)[0] == '0' <==> n == 0)
    decreases n
  {
    var s := Render(n, base);
    if n < base {
      DigitRoundTrip(n);
      assert s[..0] == [];
      assert Value(s[..0], base) == 0;
    } else {
      Quotient(n, base);
      RenderReadsBack(n / base, base);
      DigitRoundTrip(n % base);
      assert s[..|s| - 1] == Render(n / base, base);
    }
  }

  lemma Quotient(n: nat, base: nat)
    requires 2 <= base <= n
    ensures 0 < n / base < n && n == (n / base) * base + n % base
  {
  }

  lemma {:induction false} RenderLength(n: nat, base: nat, w: nat)
    requires 2 <= base <= 36 && w > 0
    ensures |Render(n, base)| <= w <==> n < Pow(base, w)
    decreases w
  {
    assert Pow(base, 1) == base * Pow(base, 0);
    if w == 1 {
      if n >= base {
        assert |Render(n / base, base)| >= 1 by { RenderReadsBack(n / base, base); }
      }
    } else if n < base {
      PowGrows(base, w);
    } else {
      RenderLength(n / base, base, w - 1);
      DivLess(n, base, Pow(base, w - 1));
    }
  }

  lemma {:induction false} PowGrows(base: nat, w: nat)
    requires base >= 2 && w > 0
    ensures Pow(base, w) >= base
  {
    if w > 1 {
      PowGrows(base, w - 1);
      assert base * Pow(base, w - 1) >= base * base by { MulLe(base, base, Pow(base, w - 1)); }
    }
  }

  lemma MulLe(k: nat, a: nat, b: nat)
    requires a <= b
    ensures k * a <= k * b
  {
  }

  lemma DivLess(n: nat, base: nat, bound: nat)
    requires base > 0
    ensures n / base < bound <==> n < base * bound
  {
    var q, r := n / base, n % base;
    assert n == base * q + r;
    if q < bound {
      MulLe(base, q + 1, bound);
    } else {
      MulLe(base, bound, q);
    }
  }

  // ----- Fixed width -----

  lemma {:induction false} FixedWidthOfSmall(n: nat, w: nat)
    requires n < Pow(10, w)
    ensures w > 0 ==> |Render(n, 10)| <= w
    ensures w > 0 ==> FixedWidth(n, w) == ZeroPadded(n, w)
    decreases w
  {
    if w > 0 {
      RenderLength(n, 10, w);
      DivLess(n, 10, Pow(10, w - 1));
      FixedWidthOfSmall(n / 10, w - 1);
      if w == 1 {
        assert FixedWidth(n, 1) == [DigitChar(n)];
      } else if n < 10 {
        assert FixedWidth(n, w) == Zeros(w - 2) + ['0'] + [DigitChar(n)];
        assert Zeros(w - 1) == Zeros(w - 2) + ['0'];
      } else if |Render(n, 10)| < w {
        assert FixedWidth(n, w) == Zeros(w - |Render(n, 10)|) + Render(n / 10, 10) + [DigitChar(n % 10)];
      }
    }
  }

  /** Numbers of the same fixed width sort as numbers. */
  lemma {:induction false} FixedWidthOrder(a: nat, b: nat, w: nat)
    requires a < Pow(10, w) && b < Pow(10, w)
    ensures LexLess(FixedWidth(a, w), FixedWidth(b, w)) <==> a < b
    ensures FixedWidth(a, w) == FixedWidth(b, w) <==> a == b
    decreases w
  {
    if w > 0 {
      DivLess(a, 10, Pow(10, w - 1));
      DivLess(b, 10, Pow(10, w - 1));
      FixedWidthOrder(a / 10, b / 10, w - 1);
      var x, y := [DigitChar(a % 10)], [DigitChar(b % 10)];
      LexConcat(FixedWidth(a / 10, w - 1), x, FixedWidth(b / 10, w - 1), y);
      DigitRoundTrip(a % 10);
      DigitRoundTrip(b % 10);
      assert LexLess(x, y) <==> x[0] < y[0];
      assert FixedWidth(a, w)[w - 1] == x[0] && FixedWidth(b, w)[w - 1] == y[0];
      assert FixedWidth(a, w)[..w - 1] == FixedWidth(a / 10, w - 1);
      assert FixedWidth(b, w)[..w - 1] == FixedWidth(b / 10, w - 1);
    }
  }

  /** Zero padding to width `w` sorts numerically below 10^w. */
  lemma ZeroPaddedOrder(a: nat, b: nat, w: nat)
    requires w > 0 && a < Pow(10, w) && b < Pow(10, w)
    ensures |ZeroPadded(a, w)| == |ZeroPadded(b, w)| == w
    ensures LexLess(ZeroPadded(a, w), ZeroPadded(b, w)) <==> a < b
    ensures ZeroPadded(a, w) == ZeroPadded(b, w) <==> a == b
  {
    FixedWidthOfSmall(a, w);
    FixedWidthOfSmall(b, w);
    FixedWidthOrder(a, b, w);
  }

  lemma {:induction false} RenderIsDecimal(n: nat)
    ensures forall c <- Render(n, 10) :: '0' <= c <= '9'
  {
    if n >= 10 {
      RenderIsDecimal(n / 10);
    }
  }

  lemma ZeroPaddedIsDecimal(n: nat, w: nat)
    ensures forall c <- ZeroPadded(n, w) :: '0' <= c <= '9'
  {
    RenderIsDecimal(n);
    if |Render(n, 10)| < w {
      ZerosAreZeros(w - |Render(n, 10)|);
    }
  }

  lemma {:induction false} ZerosAreZeros(k: nat)
    ensures forall c <- Zeros(k) :: c == '0'
  {
    if k > 0 {
      ZerosAreZeros(k - 1);
    }
  }

  // ----- Decimal text -----

  /** `s` is `n` in decimal, at least `w` digits of it and no zero in front of more. */
  ghost predicate IsNumber(s: string, n: nat, w: nat) {
    && (forall c <- s :: '0' <= c <= '9') && Value(s, 10) == n
    && |s| >= w && (|s| > w ==> s[0] != '0' || |s| == 1)
  }

  lemma {:induction false} ValueOfZeros(k: nat, s: string)
    ensures Value(Zeros(k) + s, 10) == Value(s, 10)
    decreases k, |s|
  {
    if s == [] {
      assert Zeros(k) + s == Zeros(k);
      if k > 0 {
        ValueOfZeros(k - 1, []);
        assert Zeros(k - 1) + [] == Zeros(k - 1);
        assert Zeros(k)[..k - 1] == Zeros(k - 1);
      }
    } else {
      ValueOfZeros(k, s[..|s| - 1]);
      assert (Zeros(k) + s)[..|Zeros(k) + s| - 1] == Zeros(k) + s[..|s| - 1];
    }
  }

  lemma ZeroPaddedIsNumber(n: nat, w: nat)
    ensures IsNumber(ZeroPadded(n, w), n, w)
  {
    hide Render, Value, Zeros, IsDigits;
    RenderReadsBack(n, 10);
    ZeroPaddedIsDecimal(n, w);
    if |Render(n, 10)| < w {
      ValueOfZeros(w - |Render(n, 10)|, Render(n, 10));
    } else if n == 0 {
      ZeroIsOneDigit();
    }
  }

  lemma ZeroIsOneDigit()
    ensures |Render(0, 10)| == 1
  {
  }

  lemma RenderIsNumber(n: nat)
    ensures IsNumber(Render(n, 10), n, 1)
  {
    hide Render, Value, IsDigits;
    RenderReadsBack(n, 10);
    RenderIsDecimal(n);
    if n == 0 {
      ZeroIsOneDigit();
    }
  }
}
