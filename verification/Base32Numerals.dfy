/**
 The codec in terms of numbers: the bytes are a numeral to base 256, the letters one to base 32, and the two differ by
 the bits that fill up the last letter or octet.
 */
module Base32Numerals {
  import opened Base32
  import opened Bitwise
  import opened Collections

  /** The number that the digits spell, the most significant one first. */
  function Numeral(digits: seq<nat>, radix: nat): nat {
    if digits == [] then 0 else radix * Numeral(digits[..|digits| - 1], radix) + digits[|digits| - 1]
  }

  lemma {:induction false} ValueAppend(a: seq<bool>, b: seq<bool>)
    ensures Value(a + b) == Value(a) * Pow2(|b|) + Value(b)
  {
    if b == [] {
      assert a + b == a;
    } else {
      var n := |b| - 1;
      assert (a + b)[..|a| + n] == a + b[..n];
      ValueAppend(a, b[..n]);
      OneMoreBit(Value(a), Pow2(n), Value(b[..n]), if b[n] then 1 else 0);
    }
  }

  lemma OneMoreBit(x: nat, p: nat, y: nat, bit: nat)
    ensures 2 * (x * p + y) + bit == x * (2 * p) + (2 * y + bit)
  {
  }

  lemma ValueOfGroup(front: seq<bool>, x: nat, n: nat, p: nat)
    requires p == Pow2(n) && x < p
    ensures Value(front + Bits(x, n)) == p * Value(front) + x
  {
    ValueOfBits(x, n);
    ValueWith(front, Bits(x, n), p);
  }

  lemma ValueWith(a: seq<bool>, b: seq<bool>, p: nat)
    requires p == Pow2(|b|)
    ensures Value(a + b) == p * Value(a) + Value(b)
  {
    ValueAppend(a, b);
    Commutes(Value(a), p);
  }

  lemma Commutes(x: nat, y: nat)
    ensures x * y == y * x
  {
  }

  lemma {:induction false} BytesAreNumeral(data: seq<byte>)
    ensures Value(BitsOfBytes(data)) == Numeral(data, 256)
  {
    if data != [] {
      var n := |data| - 1;
      BytesAreNumeral(data[..n]);
      Pow2Values();
      ValueOfGroup(BitsOfBytes(data[..n]), data[n], 8, 256);
    }
  }

  lemma {:induction false} SymbolsAreNumeral(symbols: seq<quintet>)
    ensures Value(BitsOfSymbols(symbols)) == Numeral(symbols, 32)
  {
    if symbols != [] {
      var n := |symbols| - 1;
      SymbolsAreNumeral(symbols[..n]);
      Pow2Values();
      ValueOfGroup(BitsOfSymbols(symbols[..n]), symbols[n], 5, 32);
    }
  }

  lemma {:induction false} ZerosAreNothing(n: nat)
    ensures Value(Zeros(n)) == 0
  {
    if n > 0 {
      ZerosAreNothing(n - 1);
      assert Zeros(n)[..n - 1] == Zeros(n - 1);
    }
  }

  /** The character stands for this digit: A to Z, in either case, for 0 to 25, and 2 to 7 for 26 to 31. */
  ghost predicate Spells(c: char, digit: nat) {
    if digit < 26 then c as int in {'A' as int + digit, 'a' as int + digit}
    else digit < 32 && c as int == '2' as int + digit - 26
  }

  ghost predicate IsUpper(c: char) {
    !('a' <= c <= 'z')
  }

  lemma SpellsIff(c: char, x: nat)
    ensures Spells(c, x) <==> SymbolOf(c).Some? && SymbolOf(c).value == x
    ensures Spells(c, x) ==> x < 32 && !Skipped(c)
  {
  }

  lemma LetterSpells(x: quintet)
    ensures Spells(LetterOf(x), x) && IsUpper(LetterOf(x))
  {
  }

  lemma {:induction false} LettersSpell(symbols: seq<quintet>, i: nat)
    requires i < |symbols|
    ensures Spells(Letters(symbols)[i], symbols[i]) && IsUpper(Letters(symbols)[i])
  {
    var n := |symbols| - 1;
    if i < n {
      LettersSpell(symbols[..n], i);
    } else {
      LetterSpells(symbols[n]);
    }
  }

  /** The encoded text spells the number of the bytes, shifted by the bits that fill up the last letter. */
  lemma EncodeSpells(data: seq<byte>) returns (digits: seq<nat>)
    ensures |digits| == |Encode(data)| && 0 <= 5 * |digits| - 8 * |data| < 5
    ensures forall i :: 0 <= i < |digits| ==> Spells(Encode(data)[i], digits[i]) && IsUpper(Encode(data)[i])
    ensures Numeral(digits, 32) == Numeral(data, 256) * Pow2(5 * |digits| - 8 * |data|)
  {
    var b := BitsOfBytes(data);
    var symbols := Symbols(Padded(b));
    digits := symbols;
    SymbolsKeepBits(Padded(b), (|b| + 4) / 5);
    SymbolsAreNumeral(symbols);
    BytesAreNumeral(data);
    ValueAppend(b, Zeros(Padding(b)));
    ZerosAreNothing(Padding(b));
    forall i | 0 <= i < |digits| ensures Spells(Encode(data)[i], digits[i]) && IsUpper(Encode(data)[i]) {
      LettersSpell(symbols, i);
    }
  }

  ghost predicate SpellsAll(text: string, digits: seq<nat>) {
    |text| == |digits| && forall i :: 0 <= i < |text| ==> Spells(text[i], digits[i])
  }

  lemma {:induction false} SymbolsOfSpelled(text: string, digits: seq<nat>) returns (symbols: seq<quintet>)
    requires SpellsAll(text, digits)
    ensures SymbolsOf(text) == Some(symbols) && symbols == digits
  {
    symbols := [];
    if text != "" {
      var n := |text| - 1;
      symbols := SymbolsOfSpelled(text[..n], digits[..n]);
      SpellsIff(text[n], digits[n]);
      symbols := symbols + [digits[n]];
    }
  }

  /** Decoding a text without fillers gives the number that it spells, without the bits of an incomplete octet. */
  lemma DecodeSpells(text: string, digits: seq<nat>) returns (data: seq<byte>)
    requires SpellsAll(text, digits)
    ensures Decode(text) == Some(data) && |data| == 5 * |text| / 8
    ensures Numeral(data, 256) == Numeral(digits, 32) / Pow2(5 * |text| % 8)
  {
    var symbols := SymbolsOfSpelled(text, digits);
    var b := BitsOfSymbols(symbols);
    data := Octets(b);
    OctetsKeepBits(b);
    BytesAreNumeral(data);
    SymbolsAreNumeral(symbols);
    TopOf(b, 8 * (|b| / 8));
  }

  /** Cutting off the last bits of a string divides its value. */
  lemma TopOf(b: seq<bool>, k: nat)
    requires k <= |b|
    ensures Value(b[..k]) == Value(b) / Pow2(|b| - k)
  {
    assert b == b[..k] + b[k..];
    ValueAppend(b[..k], b[k..]);
    BitsOfValue(b[k..]);
    QuotientIs(Value(b), Pow2(|b| - k), Value(b[..k]));
  }

  /** Padding and white space are fillers: they can be anywhere and change nothing. */
  lemma FillersChangeNothing(front: string, c: char, back: string)
    requires c == '=' || c == ' ' || c == '\t' || c == '\n' || c == '\r'
    ensures Decode(front + [c] + back) == Decode(front + back)
  {
    FillerBefore(front, c, back);
  }

  lemma {:induction false} FillerBefore(front: string, c: char, back: string)
    requires Skipped(c)
    ensures SymbolsOf(front + [c] + back) == SymbolsOf(front + back)
  {
    if back == "" {
      assert (front + [c])[..|front|] == front && front + [c] + back == front + [c] && front + back == front;
    } else {
      var n := |back| - 1;
      FillerBefore(front, c, back[..n]);
      assert (front + [c] + back)[..|front| + 1 + n] == front + [c] + back[..n];
      assert (front + back)[..|front| + n] == front + back[..n];
    }
  }
}
