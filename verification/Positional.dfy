/** Numbers written in a base, most significant digit first. */
module Positional {
  import opened Arith

  type Base = b: nat | 2 <= b witness 2

  /** The number a list of digits stands for. */
  function Horner(b: Base, ds: seq<nat>): nat {
    if ds == [] then 0 else Horner(b, ds[..|ds| - 1]) * b + ds[|ds| - 1]
  }

  predicate AllBelow(b: Base, ds: seq<nat>) {
    forall i :: 0 <= i < |ds| ==> ds[i] < b
  }

  /** The last g digits of v. */
  function Digits(b: Base, v: nat, g: nat): (ds: seq<nat>)
    ensures |ds| == g
  {
    if g == 0 then [] else Digits(b, v / b, g - 1) + [v % b]
  }

  lemma HornerAppend(b: Base, ds: seq<nat>, d: nat)
    ensures Horner(b, ds + [d]) == Horner(b, ds) * b + d
  {
    assert (ds + [d])[..|ds|] == ds;
  }

  lemma {:induction false} HornerConcat(b: Base, x: seq<nat>, y: seq<nat>)
    ensures Horner(b, x + y) == Horner(b, x) * Pow(b, |y|) + Horner(b, y)
    decreases |y|
  {
    if y == [] {
      assert x + y == x;
    } else {
      var front, last := y[..|y| - 1], y[|y| - 1];
      HornerConcat(b, x, front);
      HornerAppend(b, x + front, last);
      assert x + y == x + front + [last];
      ConcatIdentity(Horner(b, x), Pow(b, |front|), Horner(b, front), b);
    }
  }

  lemma ConcatIdentity(h: nat, w: nat, f: nat, b: nat)
    ensures (h * w + f) * b == h * (w * b) + f * b
  {
    assert h * w * b == h * (w * b);
    assert (h * w + f) * b == h * w * b + f * b;
  }

  lemma {:induction false} HornerBound(b: Base, ds: seq<nat>)
    requires AllBelow(b, ds)
    ensures Horner(b, ds) < Pow(b, |ds|)
    decreases |ds|
  {
    if ds != [] {
      HornerBound(b, ds[..|ds| - 1]);
      StepBound(Horner(b, ds[..|ds| - 1]), Pow(b, |ds| - 1), b);
    }
  }

  lemma StepBound(h: nat, w: nat, b: nat)
    requires h < w
    ensures h * b + b <= w * b
  {
    NonzeroMultiple(w - h, b);
    assert (w - h) * b == w * b - h * b;
  }

  lemma QuotientBelow(v: nat, w: nat, b: Base)
    requires v < w * b
    ensures v / b < w
  {
    DivMod(v, b);
    NonzeroMultiple(v / b - w, b);
    assert (v / b - w) * b == (v / b) * b - w * b;
  }

  /** A number below b^g is what its g digits stand for. */
  lemma {:induction false} DigitsHorner(b: Base, v: nat, g: nat)
    requires v < Pow(b, g)
    ensures Horner(b, Digits(b, v, g)) == v && AllBelow(b, Digits(b, v, g))
    decreases g
  {
    if g > 0 {
      QuotientBelow(v, Pow(b, g - 1), b);
      DigitsHorner(b, v / b, g - 1);
      HornerAppend(b, Digits(b, v / b, g - 1), v % b);
      DivMod(v, b);
    }
  }

  /** Digit lists are recovered from the number they stand for. */
  lemma {:induction false} HornerDigits(b: Base, ds: seq<nat>)
    requires AllBelow(b, ds)
    ensures Digits(b, Horner(b, ds), |ds|) == ds
    decreases |ds|
  {
    if ds != [] {
      var front, last := ds[..|ds| - 1], ds[|ds| - 1];
      HornerDigits(b, front);
      QuotientUnique(Horner(b, ds), b, Horner(b, front), last);
      assert ds == front + [last];
    }
  }

  lemma {:induction false} DigitsSplit(b: Base, v: nat, g: nat, h: nat)
    ensures Pow(b, h) >= 1 && Digits(b, v, g + h) == Digits(b, v / Pow(b, h), g) + Digits(b, v, h)
    decreases h
  {
    PowPositive(b, h);
    if h > 0 {
      DigitsSplit(b, v / b, g, h - 1);
      assert Pow(b, h) == Pow(b, h - 1) * b;
      hide Pow;
      DivDiv(v, b, Pow(b, h - 1));
      assert Digits(b, v, g + h) == Digits(b, v / b, g + h - 1) + [v % b];
      assert Digits(b, v, h) == Digits(b, v / b, h - 1) + [v % b];
      hide Digits;
    }
  }

  lemma DivDiv(v: nat, b: nat, w: nat)
    requires b >= 1 && w >= 1
    ensures w * b >= 1 && (v / b) / w == v / (w * b)
    ensures (v % (w * b)) / b == (v / b) % w && (v % (w * b)) % b == v % b
  {
    NonzeroMultiple(w, b);
    DivMod(v, b);
    DivMod(v / b, w);
    var q, r, s := (v / b) / w, (v / b) % w, v % b;
    StepBound(r, w, b);
    NonzeroMultiple(b, r);
    ConcatIdentity(q, w, r, b);
    assert v == q * (w * b) + (r * b + s);
    Quotients(v, w * b, q, b, r, s);
  }

  lemma Quotients(v: nat, m: nat, q: nat, b: nat, r: nat, s: nat)
    requires m >= 1 && v == q * m + (r * b + s) && r * b + s < m && s < b
    ensures v / m == q && (v % m) / b == r && (v % m) % b == s
  {
    QuotientUnique(v, m, q, r * b + s);
    QuotientUnique(r * b + s, b, r, s);
  }

  /** The last g digits do not depend on what stands above them. */
  lemma {:induction false} DigitsMod(b: Base, v: nat, g: nat)
    ensures Pow(b, g) >= 1 && Digits(b, v % Pow(b, g), g) == Digits(b, v, g)
    decreases g
  {
    PowPositive(b, g);
    if g > 0 {
      DigitsMod(b, v / b, g - 1);
      DivDiv(v, b, Pow(b, g - 1));
    }
  }

  /** Digit k from the left, as a shift and a mask read it. */
  lemma {:induction false} DigitAt(b: Base, v: nat, g: nat, k: nat)
    requires k < g
    ensures Pow(b, g - 1 - k) >= 1 && Digits(b, v, g)[k] == (v / Pow(b, g - 1 - k)) % b
    decreases g
  {
    PowPositive(b, g - 1 - k);
    if k < g - 1 {
      DigitAt(b, v / b, g - 1, k);
      DivDiv(v, b, Pow(b, g - 2 - k));
    }
  }

  lemma LastWord(b: Base, c: Base, g: nat, v: nat, h: nat, x: nat)
    requires c == Pow(b, g) && x < g
    ensures Pow(b, g - 1 - x) >= 1 && (v % c / Pow(b, g - 1 - x)) % b == Digits(b, v, h + g)[h + x]
  {
    hide Pow, Digits;
    DigitAt(b, v % c, g, x);
    DigitsMod(b, v, g);
    DigitsSplit(b, v, h, g);
  }

  /** A digit read out of a word, the words being digits of the base b^g. */
  lemma {:induction false} WordDigit(b: Base, c: Base, g: nat, v: nat, m: nat, j: nat, x: nat)
    requires c == Pow(b, g) && j < m && x < g
    ensures Pow(b, g - 1 - x) >= 1 && 0 <= g * j + x < g * m
    ensures (Digits(c, v, m)[j] / Pow(b, g - 1 - x)) % b == Digits(b, v, g * m)[g * j + x]
    decreases m
  {
    hide Pow;
    WordIndex(g, m, j, x);
    var h := g * (m - 1);
    if j == m - 1 {
      LastWord(b, c, g, v, h, x);
    } else {
      WordDigit(b, c, g, v / c, m - 1, j, x);
      DigitsSplit(b, v, h, g);
      assert Digits(c, v, m)[j] == Digits(c, v / c, m - 1)[j];
      assert Digits(b, v, g * m)[g * j + x] == Digits(b, v / c, h)[g * j + x];
    }
  }

  lemma WordIndex(g: nat, m: nat, j: nat, x: nat)
    requires j < m && x < g
    ensures 0 <= g * j + x < g * m && g * m == g * (m - 1) + g
  {
    NonzeroMultiple(m - j, g);
    assert g * m == (m - j) * g + g * j;
  }

  /** Leading zeros are worth nothing. */
  lemma {:induction false} LeadingZeros(b: Base, zeros: seq<nat>, ds: seq<nat>)
    requires forall i :: 0 <= i < |zeros| ==> zeros[i] == 0
    ensures Horner(b, zeros + ds) == Horner(b, ds)
  {
    HornerConcat(b, zeros, ds);
    ZeroValue(b, zeros);
  }

  lemma {:induction false} ZeroValue(b: Base, zeros: seq<nat>)
    requires forall i :: 0 <= i < |zeros| ==> zeros[i] == 0
    ensures Horner(b, zeros) == 0
    decreases |zeros|
  {
    if zeros != [] { ZeroValue(b, zeros[..|zeros| - 1]); }
  }
}
