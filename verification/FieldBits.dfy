/** The little-endian bits of a field element, as scalar multiplication and the Pedersen hash take them. */
module FieldBits {
  import opened Arith
  import opened Positional
  import opened FieldText
  import opened CurveGroup

  lemma SixtyFourBits()
    ensures Pow(2, 64) == 0x1_0000_0000_0000_0000
  {
    FourBits();
    hide Pow;
    PowAdd(2, 4, 4);
    PowAdd(2, 8, 8);
    PowAdd(2, 16, 16);
    PowAdd(2, 32, 32);
  }

  lemma FourBits()
    ensures Pow(2, 4) == 16
  {
  }

  /** Bit k from the right is binary digit k from the right. */
  lemma {:induction false} BitsAreDigits(v: nat, count: nat, k: nat)
    requires k < count
    ensures ToBitsLe(v, count)[k] <==> Digits(2, v, count)[count - 1 - k] == 1
    decreases count
  {
    if k > 0 {
      BitsAreDigits(v / 2, count - 1, k - 1);
    }
  }

  /** Reads the bits word by word, the least significant word first. */
  method WordsToBitsLe(value: nat) returns (bits: array<bool>)
    requires value < U256_LIMIT
    ensures fresh(bits) && bits[..] == ToBitsLe(value, 256)
  {
    hide Digits, Pow, ToBitsLe;
    bits := new bool[256](_ => false);
    SixtyFourBits();
    var words := Digits(0x1_0000_0000_0000_0000, value, 4);
    for indElement := 0 to 4
      invariant forall k :: 0 <= k < 64 * indElement ==> bits[k] == ToBitsLe(value, 256)[k]
    {
      var element := words[3 - indElement];
      for indBit := 0 to 64
        invariant forall k :: 0 <= k < 64 * indElement + indBit ==> bits[k] == ToBitsLe(value, 256)[k]
      {
        WordDigit(2, 0x1_0000_0000_0000_0000, 64, value, 4, 3 - indElement, 63 - indBit);
        BitsAreDigits(value, 256, 64 * indElement + indBit);
        bits[indElement * 64 + indBit] := (element / Pow(2, indBit)) % 2 == 1;
      }
    }
  }
}
