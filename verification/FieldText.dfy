/** Field elements as text and bytes: decimal, hexadecimal and big-endian byte conversions. */
module FieldText {
  import opened Field
  import opened Arith
  import opened Positional

  type Byte = b: nat | b < 256

  const U256_LIMIT: nat := 0x1_0000000000000000_0000000000000000_0000000000000000_0000000000000000

  datatype FromStrError = InvalidCharacter | OutOfRange

  datatype Parsed = Ok(value: nat) | Err(error: FromStrError)

  // ----- decimal ------------------------------------------------------------------------------------------

  predicate IsDigit(b: Byte) { 48 <= b <= 57 }

  predicate AllDigits(s: seq<Byte>) {
    forall i :: 0 <= i < |s| ==> IsDigit(s[i])
  }

  /** The byte less '0', wrapping around. */
  function DigitOf(b: Byte): nat { (b + 256 - 48) % 256 }

  function DigitsOf(s: seq<Byte>): seq<nat> {
    seq(|s|, i requires 0 <= i < |s| => DigitOf(s[i]))
  }

  /** What a digit string stands for. */
  function DecValue(s: seq<Byte>): nat { Horner(10, DigitsOf(s)) }

  /** The scan meets a byte that is no digit while the value so far still fits 256 bits. */
  predicate StopsAt(s: seq<Byte>, i: nat) {
    i < |s| && AllDigits(s[..i]) && DecValue(s[..i]) < U256_LIMIT && !IsDigit(s[i])
  }

  ghost predicate BadCharacter(s: seq<Byte>) {
    exists i: nat :: StopsAt(s, i)
  }

  ghost function DecResult(p: Modulus, s: seq<Byte>): Parsed {
    if BadCharacter(s) then Err(InvalidCharacter)
    else if AllDigits(s) && DecValue(s) < p then Ok(DecValue(s))
    else Err(OutOfRange)
  }

  method FromDecStr(p: Modulus, value: seq<Byte>) returns (r: Parsed)
    requires p <= U256_LIMIT
    ensures r == DecResult(p, value)
  {
    var res := 0;
    for k := 0 to |value|
      invariant AllDigits(value[..k]) && res == DecValue(value[..k]) && res < U256_LIMIT
    {
      var b := DigitOf(value[k]);
      if b > 9 {
        assert StopsAt(value, k);
        return Err(InvalidCharacter);
      }
      DecAppend(value, k);
      var product := res * 10;
      if product >= U256_LIMIT {
        OverflowStays(p, value, k + 1);
        return Err(OutOfRange);
      }
      var sum := product + b;
      if sum >= U256_LIMIT {
        OverflowStays(p, value, k + 1);
        return Err(OutOfRange);
      }
      res := sum;
    }
    assert value[..|value|] == value;
    return if res < p then Ok(res) else Err(OutOfRange);
  }

  lemma DecAppend(s: seq<Byte>, k: nat)
    requires k < |s|
    ensures DecValue(s[..k + 1]) == DecValue(s[..k]) * 10 + DigitOf(s[k])
  {
    HornerAppend(10, DigitsOf(s[..k]), DigitOf(s[k]));
    assert DigitsOf(s[..k + 1]) == DigitsOf(s[..k]) + [DigitOf(s[k])];
  }

  lemma {:induction false} PrefixGrows(s: seq<Byte>, i: nat, j: nat)
    requires i <= j <= |s|
    ensures DecValue(s[..i]) <= DecValue(s[..j])
    decreases j - i
  {
    if i < j {
      PrefixGrows(s, i, j - 1);
      DecAppend(s, j - 1);
    }
  }

  /** Once 256 bits overflow, no later byte matters. */
  lemma OverflowStays(p: Modulus, s: seq<Byte>, k: nat)
    requires p <= U256_LIMIT && k <= |s| && AllDigits(s[..k]) && DecValue(s[..k]) >= U256_LIMIT
    ensures DecResult(p, s) == Err(OutOfRange)
  {
    hide DecValue;
    forall j: nat | j < |s| ensures !StopsAt(s, j) {
      if j < k {
        assert s[..k][j] == s[j];
      } else {
        PrefixGrows(s, k, j);
      }
    }
    PrefixGrows(s, k, |s|);
    assert s[..|s|] == s;
  }

  /** A digit string is accepted exactly when its value is below the modulus, and nothing else is accepted. */
  lemma AcceptedIff(p: Modulus, s: seq<Byte>, x: nat)
    ensures DecResult(p, s) == Ok(x) <==> AllDigits(s) && DecValue(s) < p && x == DecValue(s)
  {
    hide DecValue;
  }

  /** The value is read from the left: ten times what came before, plus the digit. */
  lemma DecValueIs(s: seq<Byte>, b: Byte)
    requires 48 <= b <= 57
    ensures DecValue([]) == 0
    ensures DecValue(s + [b]) == 10 * DecValue(s) + (b - 48)
  {
    assert DigitsOf([]) == [];
    DecAppend(s + [b], |s|);
    assert (s + [b])[..|s|] == s && (s + [b])[..|s| + 1] == s + [b];
  }

  /** The first byte that is no digit, met before 256 bits overflow. */
  predicate FirstBad(s: seq<Byte>, i: nat) {
    && i < |s| && !(48 <= s[i] <= 57) && (forall j :: 0 <= j < i ==> 48 <= s[j] <= 57)
    && DecValue(s[..i]) < 0x1_0000000000000000_0000000000000000_0000000000000000_0000000000000000
  }

  /** Which error is reported when. */
  lemma DecErrors(p: Modulus, s: seq<Byte>)
    ensures DecResult(p, s) == Err(InvalidCharacter) <==> exists i: nat :: FirstBad(s, i)
    ensures DecResult(p, s) == Err(OutOfRange) <==>
      !(exists i: nat :: FirstBad(s, i)) && !((forall j :: 0 <= j < |s| ==> 48 <= s[j] <= 57) && DecValue(s) < p)
  {
    hide DecValue;
    forall i: nat ensures StopsAt(s, i) <==> FirstBad(s, i) {
      if i < |s| {
        assert forall j :: 0 <= j < i ==> s[..i][j] == s[j];
        if FirstBad(s, i) { assert AllDigits(s[..i]); }
        if StopsAt(s, i) {
          forall j | 0 <= j < i ensures 48 <= s[j] <= 57 { assert IsDigit(s[..i][j]); }
        }
      }
    }
  }

  /** The decimal text of v. */
  function DecText(v: nat): seq<Byte> {
    if v < 10 then [48 + v] else DecText(v / 10) + [48 + v % 10]
  }

  /** Writes the decimal digits from the right end of an 80-byte buffer. */
  method Display(value: nat) returns (s: seq<Byte>)
    requires value < U256_LIMIT
    ensures s == DecText(value)
  {
    if value == 0 {
      return [48];
    }
    var buf := new Byte[80](_ => 0);
    var i: nat := 79;
    var current: nat := value;
    EightyDigits();
    while true
      invariant 0 <= i < 80 && current < Pow(10, i + 1)
      invariant DecText(current) + buf[i + 1..] == DecText(value)
      decreases i
    {
      hide Pow;
      var digit: nat := if current < 10 then current else current % 10;
      PowStep(i);
      assert DecText(current) == (if current / 10 == 0 then [] else DecText(current / 10)) + [48 + digit];
      buf[i] := digit + 48;
      assert buf[i..] == [48 + digit] + buf[i + 1..];
      current := current / 10;
      if current == 0 {
        break;
      }
      i := i - 1;
    }
    return buf[i..];
  }

  lemma PowStep(i: nat)
    ensures Pow(10, i + 1) == Pow(10, i) * 10 && (i == 0 ==> Pow(10, i) == 1)
  {
  }

  lemma EightyDigits()
    ensures U256_LIMIT <= Pow(10, 80)
  {
    FiveDigits();
    hide Pow;
    PowAdd(10, 5, 5);
    PowAdd(10, 10, 10);
    PowAdd(10, 20, 20);
    PowAdd(10, 40, 40);
  }

  lemma FiveDigits()
    ensures Pow(10, 5) == 100000
  {
  }

  /** Every text the printer writes is a digit string of the number, without leading zeros. */
  lemma {:induction false} DecTextIs(v: nat)
    ensures AllDigits(DecText(v)) && DecValue(DecText(v)) == v
    ensures DecText(v) != [] && (DecText(v)[0] == 48 ==> v == 0)
    decreases v
  {
    var s := DecText(v);
    var k := |s| - 1;
    if v >= 10 {
      DecTextIs(v / 10);
      assert s[..k] == DecText(v / 10);
    }
    DecAppend(s, k);
    assert s[..k + 1] == s;
    if v < 10 { assert DigitsOf(s[..0]) == []; }
  }

  /** It is the only such text of the number. */
  lemma {:induction false} CanonicalText(s: seq<Byte>)
    requires AllDigits(s) && s != [] && (s[0] == 48 ==> |s| == 1)
    ensures DecText(DecValue(s)) == s
    decreases |s|
  {
    var k := |s| - 1;
    DecAppend(s, k);
    assert s[..k + 1] == s;
    if k == 0 {
      assert DigitsOf(s[..0]) == [];
    } else {
      CanonicalText(s[..k]);
      DecTextIs(DecValue(s[..k]));
      assert s[..k][0] == s[0];
      assert s == s[..k] + [s[k]];
    }
  }

  /** Parsing the printed text gives the element back. */
  lemma DecRoundTrip(p: Modulus, x: nat)
    requires x < p
    ensures DecResult(p, DecText(x)) == Ok(x)
  {
    DecTextIs(x);
    AcceptedIff(p, DecText(x), x);
  }
}
