/** Hexadecimal text and big-endian bytes of field elements. */
module FieldHex {
  import opened Options
  import opened Field
  import opened Arith
  import opened Positional
  import opened FieldText

  // ----- bytes --------------------------------------------------------------------------------------------

  /** The bits of one byte, from the most significant. */
  method SpreadByte(byte: Byte, bits: array<nat>, indByte: nat)
    requires 8 * indByte + 8 <= bits.Length
    modifies bits
    ensures bits[..8 * indByte] == old(bits[..8 * indByte])
    ensures bits[8 * indByte..8 * indByte + 8] == Digits(2, byte, 8)
  {
    hide Digits, Pow;
    for indBit := 0 to 8
      invariant bits[..8 * indByte] == old(bits[..8 * indByte])
      invariant forall k :: 0 <= k < indBit ==> bits[8 * indByte + k] == Digits(2, byte, 8)[k]
    {
      DigitAt(2, byte, 8, indBit);
      bits[indByte * 8 + indBit] := (byte / Pow(2, 7 - indBit)) % 2;
    }
  }

  /** Spreads 32 bytes into 256 bits, most significant first, and accepts what is below the modulus. */
  method FromByteSlice(p: Modulus, bytes: seq<Byte>) returns (r: Option<nat>)
    requires |bytes| == 32
    ensures r == if Horner(256, bytes) < p then Some(Horner(256, bytes)) else None
  {
    hide Horner, Digits, Pow;
    var bits := new nat[256](_ => 0);
    EmptyNumbers();
    for indByte := 0 to 32
      invariant Horner(2, bits[..8 * indByte]) == Horner(256, bytes[..indByte])
    {
      ghost var done := bits[..8 * indByte];
      SpreadByte(bytes[indByte], bits, indByte);
      ByteAppended(bytes[..indByte], done, bytes[indByte]);
      assert bits[..8 * (indByte + 1)] == done + bits[8 * indByte..8 * indByte + 8];
      assert bytes[..indByte + 1] == bytes[..indByte] + [bytes[indByte]];
    }
    assert bits[..256] == bits[..] && bytes[..32] == bytes;
    var number := Horner(2, bits[..]);
    return if number < p then Some(number) else None;
  }

  lemma EmptyNumbers()
    ensures Horner(2, []) == 0 && Horner(256, []) == 0
  {
  }

  lemma EightBits()
    ensures Pow(2, 8) == 256
  {
  }

  lemma ByteAppended(bytes: seq<Byte>, bits: seq<nat>, b: Byte)
    requires Horner(2, bits) == Horner(256, bytes)
    ensures Horner(2, bits + Digits(2, b, 8)) == Horner(256, bytes + [b])
  {
    hide Horner, Digits, Pow;
    EightBits();
    DigitsHorner(2, b, 8);
    HornerConcat(2, bits, Digits(2, b, 8));
    HornerAppend(256, bytes, b);
  }

  /** Bytes written out are read back. */
  lemma BytesRoundTrip(x: nat)
    requires x < U256_LIMIT
    ensures AllBelow(256, Digits(256, x, 32)) && Horner(256, Digits(256, x, 32)) == x
  {
    hide Horner, Digits, Pow;
    Limits();
    DigitsHorner(256, x, 32);
  }

  lemma FourNibbles()
    ensures Pow(16, 4) == 65536 && Pow(256, 2) == 65536
  {
  }

  lemma Limits()
    ensures Pow(16, 64) == U256_LIMIT && Pow(256, 32) == U256_LIMIT && Pow(16, 16) == 0x1_0000_0000_0000_0000
  {
    FourNibbles();
    hide Pow;
    PowAdd(16, 4, 4);
    PowAdd(16, 8, 8);
    PowAdd(16, 16, 16);
    PowAdd(16, 32, 32);
    PowAdd(256, 2, 2);
    PowAdd(256, 4, 4);
    PowAdd(256, 8, 8);
    PowAdd(256, 16, 16);
  }

  // ----- writing hexadecimal --------------------------------------------------------------------------------

  /** What is written of a list of nibbles: leading zeros go, down to the given width. */
  function Shown(nibbles: seq<nat>, width: nat): seq<nat> {
    if nibbles == [] || nibbles[0] != 0 || |nibbles| <= width then nibbles else Shown(nibbles[1..], width)
  }

  function HexChar(nibble: nat): Byte { if nibble < 10 then 48 + nibble else if nibble < 16 then 87 + nibble else 63 }

  function HexChars(nibbles: seq<nat>): seq<Byte> {
    seq(|nibbles|, i requires 0 <= i < |nibbles| => HexChar(nibbles[i]))
  }

  function HexPrefix(alternate: bool): seq<Byte> { if alternate then [48, 120] else [] }

  /** The text of x: its 64 nibbles without leading zeros, zero-padded to `width`. */
  function HexText(x: nat, width: nat, alternate: bool): seq<Byte> {
    HexPrefix(alternate) + HexChars(Shown(Digits(16, x, 64), width))
  }

  function Width(zeroPad: Option<nat>): nat {
    match zeroPad
    case Some(w) => if w <= 64 then w else 64
    case None => 1
  }

  /** What is written and what is still to be written make up the text. */
  predicate Written(text: seq<Byte>, latch: bool, ds: seq<nat>, i: nat, width: nat, whole: seq<Byte>) {
    i <= |ds| && text + HexChars(if latch then ds[i..] else Shown(ds[i..], width)) == whole
  }

  lemma WriteStep(text: seq<Byte>, latch: bool, ds: seq<nat>, i: nat, width: nat, whole: seq<Byte>)
    requires i < |ds| && Written(text, latch, ds, i, width, whole)
    ensures var latch' := latch || ds[i] != 0 || |ds| - i <= width;
      Written(if latch' then text + [HexChar(ds[i])] else text, latch', ds, i + 1, width, whole)
  {
    hide HexChars, Shown, HexChar;
    ShownStep(ds, i, width);
    HexCharsHead(ds[i..]);
  }

  method LowerHex(value: nat, zeroPad: Option<nat>, alternate: bool) returns (text: seq<Byte>)
    requires value < U256_LIMIT
    ensures text == HexText(value, Width(zeroPad), alternate)
    ensures var width := if zeroPad.None? then 1 else if zeroPad.value > 64 then 64 else zeroPad.value;
      text == (if alternate then [48, 120] else []) + HexChars(Shown(Digits(16, value, 64), width))
  {
    hide Digits, Pow, Shown, Written, HexText, HexChars, HexChar, HexPrefix;
    var width := Width(zeroPad);
    text := HexPrefix(alternate);
    var latch := false;
    var indNibble := 0;
    Limits();
    var words := Digits(0x1_0000_0000_0000_0000, value, 4);
    ghost var nibbles, whole := Digits(16, value, 64), HexText(value, width, alternate);
    StartWriting(value, width, alternate);
    for j := 0 to 4
      invariant indNibble == 16 * j && Written(text, latch, nibbles, indNibble, width, whole)
    {
      for x := 0 to 16
        invariant indNibble == 16 * j + x && Written(text, latch, nibbles, indNibble, width, whole)
      {
        WordDigit(16, 0x1_0000_0000_0000_0000, 16, value, 4, j, x);
        WriteStep(text, latch, nibbles, indNibble, width, whole);
        var nibble := (words[j] / Pow(16, 15 - x)) % 16;
        if !latch {
          latch := nibble != 0 || 64 - indNibble <= width;
        }
        if latch {
          text := text + [HexChar(nibble)];
        }
        indNibble := indNibble + 1;
      }
    }
    EndWriting(text, latch, nibbles, width, whole);
    HexTextIs(value, width, alternate);
  }

  lemma HexTextIs(value: nat, width: nat, alternate: bool)
    ensures HexText(value, width, alternate)
      == (if alternate then [48, 120] else []) + HexChars(Shown(Digits(16, value, 64), width))
  {
  }

  lemma StartWriting(value: nat, width: nat, alternate: bool)
    ensures Written(HexPrefix(alternate), false, Digits(16, value, 64), 0, width, HexText(value, width, alternate))
  {
    hide Digits;
    assert Digits(16, value, 64)[0..] == Digits(16, value, 64);
  }

  lemma EndWriting(text: seq<Byte>, latch: bool, ds: seq<nat>, width: nat, whole: seq<Byte>)
    requires Written(text, latch, ds, |ds|, width, whole)
    ensures text == whole
  {
    ShownNone(width);
  }

  lemma HexCharsHead(ds: seq<nat>)
    requires ds != []
    ensures HexChars(ds) == [HexChar(ds[0])] + HexChars(ds[1..])
  {
  }

  lemma ShownStep(ds: seq<nat>, i: nat, width: nat)
    requires i < |ds|
    ensures ds[i..][0] == ds[i] && ds[i..][1..] == ds[i + 1..]
    ensures Shown(ds[i..], width) == if ds[i] != 0 || |ds| - i <= width then ds[i..] else Shown(ds[i + 1..], width)
  {
  }

  lemma ShownNone(width: nat)
    ensures Shown([], width) == [] && HexChars([]) == []
  {
  }

  // ----- reading hexadecimal -----------------------------------------------------------------------------------

  predicate IsHex(b: Byte) { 48 <= b <= 57 || 97 <= b <= 102 || 65 <= b <= 70 }

  predicate AllHex(s: seq<Byte>) {
    forall i :: 0 <= i < |s| ==> IsHex(s[i])
  }

  /** Either case is accepted. */
  function NibbleOf(b: Byte): nat { if b <= 57 then DigitOf(b) else if b <= 70 then b - 55 else (b + 256 - 87) % 256 }

  function NibblesOf(s: seq<Byte>): seq<nat> {
    seq(|s|, i requires 0 <= i < |s| => NibbleOf(s[i]))
  }

  function HexValue(s: seq<Byte>): nat { Horner(16, NibblesOf(s)) }

  predicate HasPrefix(s: seq<Byte>) { |s| >= 2 && s[0] == 48 && s[1] == 120 }

  /** Strips "0x" as often as it stands in front. */
  function Trimmed(s: seq<Byte>): seq<Byte> {
    if HasPrefix(s) then Trimmed(s[2..]) else s
  }

  function HexResult(p: Modulus, s: seq<Byte>): Parsed {
    var t := Trimmed(s);
    if |t| > 64 then Err(OutOfRange)
    else if !AllHex(t) then Err(InvalidCharacter)
    else if HexValue(t) < p then Ok(HexValue(t))
    else Err(OutOfRange)
  }

  /** The bytes a string of an even number of hexadecimal digits encodes. */
  function HexBytes(s: seq<Byte>): (r: seq<Byte>)
    requires AllHex(s) && |s| % 2 == 0
    ensures |r| == |s| / 2
  {
    if s == [] then []
    else HexBytes(s[..|s| - 2]) + [16 * NibbleOf(s[|s| - 2]) + NibbleOf(s[|s| - 1])]
  }

  lemma {:induction false} HexBytesValue(s: seq<Byte>)
    requires AllHex(s) && |s| % 2 == 0
    ensures Horner(256, HexBytes(s)) == HexValue(s)
    decreases |s|
  {
    hide Horner;
    if s == [] {
      EmptyHex();
    } else {
      var n := |s| - 2;
      var front, high, low := s[..n], NibbleOf(s[n]), NibbleOf(s[n + 1]);
      HexBytesValue(front);
      HornerAppend(256, HexBytes(front), 16 * high + low);
      HornerAppend(16, NibblesOf(front), high);
      HornerAppend(16, NibblesOf(front) + [high], low);
      assert NibblesOf(s) == NibblesOf(front) + [high] + [low];
    }
  }

  lemma EmptyHex()
    ensures Horner(16, []) == 0 && Horner(256, []) == 0 && NibblesOf([]) == []
  {
  }

  function Zeros(n: nat): seq<Byte> { seq(n, _ => 48) }

  lemma PaddedValue(n: nat, s: seq<Byte>)
    ensures HexValue(Zeros(n) + s) == HexValue(s) && (AllHex(Zeros(n) + s) <==> AllHex(s))
  {
    hide Horner;
    LeadingZeros(16, NibblesOf(Zeros(n)), NibblesOf(s));
    assert NibblesOf(Zeros(n) + s) == NibblesOf(Zeros(n)) + NibblesOf(s);
    if AllHex(Zeros(n) + s) {
      forall i | 0 <= i < |s| ensures IsHex(s[i]) { assert (Zeros(n) + s)[n + i] == s[i]; }
    }
  }

  /** Decodes exactly as many bytes as the buffer holds, or fails. */
  function DecodeToSlice(s: seq<Byte>): Option<seq<Byte>>
    requires |s| % 2 == 0
  {
    if AllHex(s) then Some(HexBytes(s)) else None
  }

  method FromHexBe(p: Modulus, value: seq<Byte>) returns (r: Parsed)
    ensures r == HexResult(p, value)
  {
    hide HexValue, HexBytes, AllHex, Horner;
    var trimmed := Trimmed(value);
    var hexCharsLen := |trimmed|;
    if hexCharsLen > 64 {
      return Err(OutOfRange);
    }
    var padded := if hexCharsLen == 64 then trimmed else Zeros(64 - hexCharsLen) + trimmed;
    PaddedValue(64 - hexCharsLen, trimmed);
    assert Zeros(0) + trimmed == trimmed;
    var parsedBytes := DecodeToSlice(padded);
    if parsedBytes.None? {
      return Err(InvalidCharacter);
    }
    HexBytesValue(padded);
    var fieldElement := FromByteSlice(p, parsedBytes.value);
    return match fieldElement case Some(v) => Ok(v) case None => Err(OutOfRange);
  }

  // ----- the round trip ------------------------------------------------------------------------------------------

  lemma {:induction false} ShownKeeps(ds: seq<nat>, width: nat)
    requires AllBelow(16, ds)
    ensures AllBelow(16, Shown(ds, width)) && Horner(16, Shown(ds, width)) == Horner(16, ds)
    ensures |Shown(ds, width)| <= |ds| && (|ds| >= width ==> |Shown(ds, width)| >= width)
    decreases |ds|
  {
    hide Horner;
    if ds != [] && ds[0] == 0 && |ds| > width {
      ShownKeeps(ds[1..], width);
      LeadingZeros(16, [0], ds[1..]);
      assert ds == [0] + ds[1..];
    }
  }

  /** Leading zeros are shown only to reach the width. */
  lemma {:induction false} ShownIsShortest(ds: seq<nat>, width: nat)
    ensures |Shown(ds, width)| > width ==> Shown(ds, width)[0] != 0
    decreases |ds|
  {
    if ds != [] && ds[0] == 0 && |ds| > width {
      ShownIsShortest(ds[1..], width);
    }
  }

  lemma HexCharIs(n: nat)
    requires n < 16
    ensures IsHex(HexChar(n)) && NibbleOf(HexChar(n)) == n && HexChar(n) != 120
  {
  }

  lemma HexCharsRead(ds: seq<nat>)
    requires AllBelow(16, ds)
    ensures AllHex(HexChars(ds)) && NibblesOf(HexChars(ds)) == ds && !HasPrefix(HexChars(ds))
  {
    hide HexChar, IsHex, NibbleOf;
    forall i | 0 <= i < |ds|
      ensures IsHex(HexChars(ds)[i]) && NibbleOf(HexChars(ds)[i]) == ds[i] && HexChars(ds)[i] != 120
    {
      HexCharIs(ds[i]);
    }
  }

  /** Reading the written text gives the element back, for every width and with or without the prefix. */
  lemma HexRoundTrip(p: Modulus, x: nat, width: nat, alternate: bool)
    requires x < p <= U256_LIMIT
    ensures HexResult(p, HexText(x, width, alternate)) == Ok(x)
  {
    hide Horner, Digits, Pow, HexChars, NibblesOf, AllHex, Shown;
    var ds := Digits(16, x, 64);
    Limits();
    DigitsHorner(16, x, 64);
    ShownKeeps(ds, width);
    var t := HexChars(Shown(ds, width));
    HexCharsRead(Shown(ds, width));
    HexCharsLength(Shown(ds, width));
    TrimPrefix(t, alternate);
  }

  lemma HexCharsLength(ds: seq<nat>)
    ensures |HexChars(ds)| == |ds|
  {
  }

  lemma TrimPrefix(t: seq<Byte>, alternate: bool)
    requires !HasPrefix(t)
    ensures Trimmed(HexPrefix(alternate) + t) == t
  {
    if alternate {
      assert (HexPrefix(true) + t)[2..] == t;
    } else {
      assert HexPrefix(false) + t == t;
    }
  }

  // ----- what the parser accepts -------------------------------------------------------------------------------

  /** The value of each digit, in either case; there are no other digits. */
  lemma DigitTable(b: Byte)
    ensures 48 <= b <= 57 ==> IsHex(b) && NibbleOf(b) == b - 48
    ensures 65 <= b <= 70 ==> IsHex(b) && NibbleOf(b) == b - 55
    ensures 97 <= b <= 102 ==> IsHex(b) && NibbleOf(b) == b - 87
    ensures IsHex(b) ==> NibbleOf(b) < 16 && (48 <= b <= 57 || 65 <= b <= 70 || 97 <= b <= 102)
  {
  }

  /** A value is read from the left: sixteen times what came before, plus the digit. */
  lemma HexAppend(s: seq<Byte>, b: Byte)
    requires IsHex(b)
    ensures HexValue([]) == 0
    ensures HexValue(s + [b]) == 16 * HexValue(s) + (if b <= 57 then b - 48 else if b <= 70 then b - 55 else b - 87)
  {
    DigitTable(b);
    EmptyHex();
    hide Horner;
    HornerAppend(16, NibblesOf(s), NibbleOf(b));
    assert NibblesOf(s + [b]) == NibblesOf(s) + [NibbleOf(b)];
  }

  function Prefixes(k: nat): seq<Byte> { if k == 0 then [] else [48, 120] + Prefixes(k - 1) }

  predicate StartsWithPrefix(t: seq<Byte>) { |t| >= 2 && t[0] == 48 && t[1] == 120 }

  lemma {:induction false} TrimmedIs(k: nat, t: seq<Byte>)
    requires !StartsWithPrefix(t)
    ensures Trimmed(Prefixes(k) + t) == t
  {
    if k == 0 {
      assert [] + t == t;
    } else {
      TrimmedIs(k - 1, t);
      assert Prefixes(k) + t == [48, 120] + (Prefixes(k - 1) + t);
      assert ([48, 120] + (Prefixes(k - 1) + t))[2..] == Prefixes(k - 1) + t;
    }
  }

  /** The outcome for every text that is any number of prefixes before a rest without one: too long a rest
      is out of range whatever it holds, then a byte that is no digit is an invalid character, then the
      value must be below the modulus. */
  lemma HexOutcome(p: Modulus, k: nat, t: seq<Byte>)
    requires !StartsWithPrefix(t)
    ensures |t| > 64 ==> HexResult(p, Prefixes(k) + t) == Err(OutOfRange)
    ensures HexResult(p, Prefixes(k) + t) == Err(InvalidCharacter) <==>
      |t| <= 64 && exists i :: 0 <= i < |t| && !(48 <= t[i] <= 57 || 65 <= t[i] <= 70 || 97 <= t[i] <= 102)
    ensures forall x: nat :: HexResult(p, Prefixes(k) + t) == Ok(x) <==>
      |t| <= 64 && AllHex(t) && x == HexValue(t) && x < p
  {
    TrimmedIs(k, t);
    hide HexValue;
    if AllHex(t) {
      forall i | 0 <= i < |t| ensures 48 <= t[i] <= 57 || 65 <= t[i] <= 70 || 97 <= t[i] <= 102 { DigitTable(t[i]); }
    }
  }

  /** Every text is of that form. */
  lemma {:induction false} SplitText(s: seq<Byte>) returns (k: nat, t: seq<Byte>)
    ensures s == Prefixes(k) + t && !StartsWithPrefix(t)
    decreases |s|
  {
    if StartsWithPrefix(s) {
      k, t := SplitText(s[2..]);
      k := k + 1;
      assert s == [48, 120] + s[2..];
    } else {
      k, t := 0, s;
    }
  }

  // ----- upper and lower case -----------------------------------------------------------------------------------

  /** Upper-case digits made lower case; nothing else changes, in particular not an upper-case X. */
  function Lower(s: seq<Byte>): seq<Byte> {
    seq(|s|, i requires 0 <= i < |s| => if 65 <= s[i] <= 70 then s[i] + 32 else s[i])
  }

  lemma {:induction false} TrimmedLower(s: seq<Byte>)
    ensures Trimmed(Lower(s)) == Lower(Trimmed(s))
    decreases |s|
  {
    if HasPrefix(s) {
      TrimmedLower(s[2..]);
      assert Lower(s)[2..] == Lower(s[2..]);
    }
  }

  lemma LowerDigits(t: seq<Byte>)
    ensures AllHex(Lower(t)) <==> AllHex(t)
    ensures AllHex(t) ==> NibblesOf(Lower(t)) == NibblesOf(t)
  {
    forall i | 0 <= i < |t|
      ensures IsHex(Lower(t)[i]) <==> IsHex(t[i])
      ensures IsHex(t[i]) ==> NibbleOf(Lower(t)[i]) == NibbleOf(t[i])
    {
    }
  }

  /** Case does not matter. */
  lemma CaseDoesNotMatter(p: Modulus, s: seq<Byte>)
    ensures HexResult(p, Lower(s)) == HexResult(p, s)
  {
    hide Horner, Trimmed, AllHex, NibblesOf;
    TrimmedLower(s);
    LowerDigits(Trimmed(s));
  }

  /** What is written is lower case. */
  lemma TextIsLower(x: nat, width: nat, alternate: bool)
    requires x < U256_LIMIT
    ensures Lower(HexText(x, width, alternate)) == HexText(x, width, alternate)
  {
    hide Horner, Digits, Pow, Shown;
    var ds := Digits(16, x, 64);
    Limits();
    DigitsHorner(16, x, 64);
    ShownKeeps(ds, width);
    assert forall i :: 0 <= i < |Shown(ds, width)| ==> !(65 <= HexChar(Shown(ds, width)[i]) <= 70);
  }

  /** Any spelling of the written text gives the element back. */
  lemma AnyCaseRoundTrip(p: Modulus, x: nat, width: nat, alternate: bool, s: seq<Byte>)
    requires x < p <= U256_LIMIT && Lower(s) == HexText(x, width, alternate)
    ensures HexResult(p, s) == Ok(x)
  {
    hide HexResult, HexText, Lower;
    HexRoundTrip(p, x, width, alternate);
    CaseDoesNotMatter(p, s);
  }
}
