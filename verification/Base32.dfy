/** The base32 codec of the MFA secrets: unpadded section 6 of RFC 4648. */
module Base32 {
  import opened Bitwise
  import opened Collections

  const ALPHABET := "ABCDEFGHIJKLMNOPQRSTUVWXYZ234567"
  type byte = b: nat | b < 256
  type quintet = v: nat | v < 32

  // ----- bits

  /** The `n` low bits of `x`, most significant first. */
  function Bits(x: nat, n: nat): (b: seq<bool>)
    ensures |b| == n
    decreases n, x
  {
    if n == 0 then [] else Bits(x / 2, n - 1) + [x % 2 == 1]
  }

  function BitsOfBytes(data: seq<byte>): (b: seq<bool>)
    ensures |b| == 8 * |data|
  {
    if data == [] then [] else BitsOfBytes(data[..|data| - 1]) + Bits(data[|data| - 1], 8)
  }

  function BitsOfSymbols(symbols: seq<quintet>): (b: seq<bool>)
    ensures |b| == 5 * |symbols|
  {
    if symbols == [] then [] else BitsOfSymbols(symbols[..|symbols| - 1]) + Bits(symbols[|symbols| - 1], 5)
  }

  function Zeros(n: nat): (b: seq<bool>)
    ensures |b| == n
  {
    if n == 0 then [] else Zeros(n - 1) + [false]
  }

  /** The number that a bit string spells. */
  function Value(b: seq<bool>): nat {
    if b == [] then 0 else 2 * Value(b[..|b| - 1]) + if b[|b| - 1] then 1 else 0
  }

  /** `x & 0x1F`. */
  function LowFive(x: nat): quintet {
    LowBound(x, 5);
    Pow2Values();
    Low(x, 5)
  }

  /** `x & 0xff`. */
  function LowEight(x: nat): byte {
    LowBound(x, 8);
    Pow2Values();
    Low(x, 8)
  }

  /** Truncation keeps the low bits, so an accumulator may drop bits off its top. */
  lemma {:induction false} BitsOfLow(x: nat, n: nat, width: nat)
    requires n <= width
    ensures Bits(Low(x, width), n) == Bits(x, n)
  {
    if n > 0 {
      BitsOfLow(x / 2, n - 1, width - 1);
    }
  }

  /** Shifting `k` bits in at the bottom. */
  lemma {:induction false} BitsAppend(x: nat, n: nat, y: nat, k: nat)
    requires y < Pow2(k)
    ensures Bits(Shl(x, k) + y, n + k) == Bits(x, n) + Bits(y, k)
  {
    if k > 0 {
      BitsAppend(x, n, y / 2, k - 1);
      assert Bits(x, n) + Bits(y, k) == (Bits(x, n) + Bits(y / 2, k - 1)) + [y % 2 == 1];
    } else {
      assert Bits(x, n) + [] == Bits(x, n);
    }
  }

  /** Taking the `n` bits above the `k` low ones. */
  lemma {:induction false} BitsSplit(x: nat, n: nat, k: nat)
    ensures Bits(x, n + k) == Bits(Shr(x, k), n) + Bits(x, k)
  {
    if k > 0 {
      BitsSplit(x / 2, n, k - 1);
      assert Bits(Shr(x, k), n) + Bits(x, k) == (Bits(Shr(x, k), n) + Bits(x / 2, k - 1)) + [x % 2 == 1];
    } else {
      assert Bits(x, n) + [] == Bits(x, n);
    }
  }

  lemma {:induction false} ValueOfBits(x: nat, n: nat)
    requires x < Pow2(n)
    ensures Value(Bits(x, n)) == x
  {
    if n > 0 {
      ValueOfBits(x / 2, n - 1);
      assert Bits(x, n)[..n - 1] == Bits(x / 2, n - 1);
    }
  }

  lemma {:induction false} BitsOfValue(b: seq<bool>)
    ensures Bits(Value(b), |b|) == b && Value(b) < Pow2(|b|)
  {
    if b != [] {
      BitsOfValue(b[..|b| - 1]);
    }
  }

  lemma Pow2Values()
    ensures Pow2(5) == 32 && Pow2(8) == 256
  {
    assert Pow2(4) == 16;
  }

  // ----- the codec as RFC 4648 describes it: regrouping bits

  /** How many zero bits complete the last group of five. */
  function Padding(b: seq<bool>): nat {
    5 * ((|b| + 4) / 5) - |b|
  }

  function Padded(b: seq<bool>): seq<bool> {
    b + Zeros(Padding(b))
  }

  /** The groups of five bits; incomplete ones are dropped. */
  function Symbols(b: seq<bool>): seq<quintet>
    ensures |Symbols(b)| == |b| / 5
  {
    if |b| < 5 then []
    else
      BitsOfValue(b[..5]);
      Pow2Values();
      [Value(b[..5])] + Symbols(b[5..])
  }

  /** Incomplete trailing octets are dropped. */
  function Octets(b: seq<bool>): seq<byte>
    ensures |Octets(b)| == |b| / 8
  {
    if |b| < 8 then []
    else
      BitsOfValue(b[..8]);
      Pow2Values();
      [Value(b[..8])] + Octets(b[8..])
  }

  function Letters(symbols: seq<quintet>): (text: string)
    ensures |text| == |symbols|
  {
    if symbols == [] then "" else Letters(symbols[..|symbols| - 1]) + [LetterOf(symbols[|symbols| - 1])]
  }

  function LetterOf(x: quintet): char {
    if x < 26 then 'A' + x as char else '2' + (x - 26) as char
  }

  lemma AlphabetLetters(x: quintet)
    ensures ALPHABET[x] == LetterOf(x)
  {
  }

  function Encode(data: seq<byte>): string {
    Letters(Symbols(Padded(BitsOfBytes(data))))
  }

  /** The characters with the Unicode property White_Space. */
  predicate IsWhitespace(c: char) {
    || '\t' <= c <= '\r' || c == ' ' || c == '\U{85}' || c == '\U{A0}' || c == '\U{1680}'
    || '\U{2000}' <= c <= '\U{200A}' || c == '\U{2028}' || c == '\U{2029}' || c == '\U{202F}'
    || c == '\U{205F}' || c == '\U{3000}'
  }

  predicate Skipped(c: char) {
    c == '=' || IsWhitespace(c)
  }

  function SymbolOf(c: char): Option<quintet> {
    if 'A' <= c <= 'Z' then Some(c as int - 'A' as int)
    else if 'a' <= c <= 'z' then Some(c as int - 'a' as int)
    else if '2' <= c <= '7' then Some(c as int - '2' as int + 26)
    else None
  }

  /** The symbols of a text without padding and white space, or None at a foreign character. */
  function SymbolsOf(text: string): Option<seq<quintet>> {
    if text == "" then Some([])
    else
      var n := |text| - 1;
      var front := SymbolsOf(text[..n]);
      if front == None || Skipped(text[n]) then front
      else if SymbolOf(text[n]) == None then None
      else Some(front.value + [SymbolOf(text[n]).value])
  }

  function Decode(text: string): Option<seq<byte>> {
    match SymbolsOf(text)
    case None => None
    case Some(symbols) => Some(Octets(BitsOfSymbols(symbols)))
  }

  // ----- the loops of the program

  method EncodeBytes(data: seq<byte>) returns (result: string)
    ensures result == Encode(data)
  {
    result := "";
    var buffer: nat := 0;
    var bitsLeft := 0;
    ghost var symbols: seq<quintet> := [];
    for i := 0 to |data|
      invariant 0 <= bitsLeft < 5 && result == Letters(symbols)
      invariant BitsOfSymbols(symbols) + Bits(buffer, bitsLeft) == BitsOfBytes(data[..i])
    {
      result, buffer, bitsLeft, symbols := AbsorbByte(result, buffer, bitsLeft, data[i], symbols, data[..i]);
      assert data[..i + 1] == data[..i] + [data[i]];
    }
    assert data[..|data|] == data;
    result := EmitLast(result, buffer, bitsLeft, symbols, data);
  }

  /** Shifts a byte in at the bottom of the accumulator and emits what is complete. */
  method AbsorbByte(text: string, accumulator: nat, bits: nat, x: byte,
                    ghost symbols: seq<quintet>, ghost done: seq<byte>)
    returns (result: string, buffer: nat, bitsLeft: nat, ghost symbols': seq<quintet>)
    requires bits < 5 && text == Letters(symbols)
    requires BitsOfSymbols(symbols) + Bits(accumulator, bits) == BitsOfBytes(done)
    ensures bitsLeft < 5 && result == Letters(symbols')
    ensures BitsOfSymbols(symbols') + Bits(buffer, bitsLeft) == BitsOfBytes(done + [x])
  {
    TakeByte(BitsOfSymbols(symbols), accumulator, bits, done, x);
    buffer := Low(Shl(accumulator, 8) + x, 64);
    result, bitsLeft, symbols' := EmitGroups(text, buffer, bits + 8, symbols);
  }

  /** The last, incomplete group, filled up with zeros. */
  method EmitLast(text: string, buffer: nat, bitsLeft: nat, ghost symbols: seq<quintet>, ghost data: seq<byte>)
    returns (result: string)
    requires text == Letters(symbols) && bitsLeft < 5
    requires BitsOfSymbols(symbols) + Bits(buffer, bitsLeft) == BitsOfBytes(data)
    ensures result == Encode(data)
  {
    result := text;
    if bitsLeft > 0 {
      var index := LowFive(Low(Shl(buffer, 5 - bitsLeft), 64));
      GiveLastSymbol(symbols, buffer, bitsLeft);
      AlphabetLetters(index);
      result := result + [ALPHABET[index]];
      AllWritten(data, symbols + [index], 5 - bitsLeft);
    } else {
      AllWritten(data, symbols, 0);
    }
  }

  /** The inner loop: emits every complete group of five bits. */
  method EmitGroups(text: string, buffer: nat, bits: nat, ghost symbols: seq<quintet>)
    returns (result: string, bitsLeft: nat, ghost symbols': seq<quintet>)
    requires text == Letters(symbols)
    ensures bitsLeft < 5 && result == Letters(symbols')
    ensures BitsOfSymbols(symbols') + Bits(buffer, bitsLeft) == BitsOfSymbols(symbols) + Bits(buffer, bits)
  {
    result, bitsLeft, symbols' := text, bits, symbols;
    while bitsLeft >= 5
      invariant result == Letters(symbols')
      invariant BitsOfSymbols(symbols') + Bits(buffer, bitsLeft) == BitsOfSymbols(symbols) + Bits(buffer, bits)
    {
      bitsLeft := bitsLeft - 5;
      var index := LowFive(Shr(buffer, bitsLeft));
      GiveSymbol(symbols', buffer, bitsLeft);
      AlphabetLetters(index);
      result := result + [ALPHABET[index]];
      symbols' := symbols' + [index];
    }
  }

  /** The accumulator step: shifts five bits in and emits an octet as soon as there are eight. */
  method AbsorbSymbol(octets: seq<byte>, accumulator: nat, bits: nat, val: quintet, ghost symbols: seq<quintet>)
    returns (result: seq<byte>, buffer: nat, bitsLeft: nat)
    requires bits < 8 && BitsOfBytes(octets) + Bits(accumulator, bits) == BitsOfSymbols(symbols)
    ensures bitsLeft < 8 && BitsOfBytes(result) + Bits(buffer, bitsLeft) == BitsOfSymbols(symbols + [val])
  {
    TakeSymbol(BitsOfBytes(octets), accumulator, bits, symbols, val);
    result := octets;
    buffer := Low(Shl(accumulator, 5) + val, 32);
    bitsLeft := bits + 5;
    if bitsLeft >= 8 {
      bitsLeft := bitsLeft - 8;
      GiveOctet(result, buffer, bitsLeft);
      result := result + [LowEight(Shr(buffer, bitsLeft))];
    }
  }

  method DecodeText(input: string) returns (r: Option<seq<byte>>)
    ensures r == Decode(input)
  {
    var result: seq<byte> := [];
    var buffer: nat := 0;
    var bitsLeft := 0;
    ghost var symbols: seq<quintet> := [];
    for i := 0 to |input|
      invariant SymbolsOf(input[..i]) == Some(symbols) && 0 <= bitsLeft < 8
      invariant BitsOfBytes(result) + Bits(buffer, bitsLeft) == BitsOfSymbols(symbols)
    {
      OneMoreCharacter(input, i);
      if Skipped(input[i]) {
        continue;
      }
      var val := SymbolOf(input[i]);
      if val == None {
        ForeignCharacter(input, i + 1);
        return None;
      }
      result, buffer, bitsLeft := AbsorbSymbol(result, buffer, bitsLeft, val.value, symbols);
      symbols := symbols + [val.value];
    }
    assert input[..|input|] == input;
    OctetsUnique(BitsOfSymbols(symbols), result, Bits(buffer, bitsLeft));
    return Some(result);
  }

  lemma {:induction false} OneMoreCharacter(input: string, i: nat)
    requires i < |input| && SymbolsOf(input[..i]).Some?
    ensures SymbolsOf(input[..i + 1]) ==
            if Skipped(input[i]) then SymbolsOf(input[..i])
            else if SymbolOf(input[i]) == None then None
            else Some(SymbolsOf(input[..i]).value + [SymbolOf(input[i]).value])
  {
    assert input[..i + 1][..i] == input[..i];
  }

  lemma {:induction false} AllWritten(data: seq<byte>, symbols: seq<quintet>, padding: nat)
    requires padding < 5 && BitsOfSymbols(symbols) == BitsOfBytes(data) + Zeros(padding)
    ensures Letters(symbols) == Encode(data)
  {
    var b := BitsOfBytes(data);
    PaddingFills(|symbols|, |b|, padding);
    SymbolsKeepBits(Padded(b), |symbols|);
    SymbolsInjective(symbols, Symbols(Padded(b)));
  }

  lemma PaddingFills(groups: nat, n: nat, padding: nat)
    requires n + padding == 5 * groups && padding < 5
    ensures 5 * ((n + 4) / 5) - n == padding
  {
  }

  lemma TakeByte(written: seq<bool>, buffer: nat, bits: nat, done: seq<byte>, x: byte)
    requires bits < 5 && written + Bits(buffer, bits) == BitsOfBytes(done)
    ensures written + Bits(Low(Shl(buffer, 8) + x, 64), bits + 8) == BitsOfBytes(done + [x])
  {
    ShiftInByte(buffer, bits, x);
    AppendOctet(done, x, []);
    ConcatAssociates(written, Bits(buffer, bits), Bits(x, 8));
  }

  lemma ConcatAssociates(a: seq<bool>, b: seq<bool>, c: seq<bool>)
    ensures (a + b) + c == a + (b + c)
  {
  }

  lemma GiveSymbol(symbols: seq<quintet>, buffer: nat, bits: nat)
    ensures var x := LowFive(Shr(buffer, bits));
            BitsOfSymbols(symbols + [x]) + Bits(buffer, bits) == BitsOfSymbols(symbols) + Bits(buffer, bits + 5)
    ensures Letters(symbols + [LowFive(Shr(buffer, bits))]) == Letters(symbols) + [LetterOf(LowFive(Shr(buffer, bits)))]
  {
    ShiftOutSymbol(buffer, bits);
    AppendSymbol(symbols, LowFive(Shr(buffer, bits)), Bits(buffer, bits));
  }

  lemma {:induction false} GiveLastSymbol(symbols: seq<quintet>, buffer: nat, bits: nat)
    requires 0 < bits < 5
    ensures var x := LowFive(Low(Shl(buffer, 5 - bits), 64));
            && BitsOfSymbols(symbols + [x]) == (BitsOfSymbols(symbols) + Bits(buffer, bits)) + Zeros(5 - bits)
            && Letters(symbols + [x]) == Letters(symbols) + [LetterOf(x)]
  {
    LastGroup(buffer, bits);
    AppendGroup(symbols, LowFive(Low(Shl(buffer, 5 - bits), 64)), Bits(buffer, bits), Zeros(5 - bits));
  }

  lemma AppendGroup(symbols: seq<quintet>, x: quintet, a: seq<bool>, b: seq<bool>)
    requires Bits(x, 5) == a + b
    ensures BitsOfSymbols(symbols + [x]) == (BitsOfSymbols(symbols) + a) + b
    ensures Letters(symbols + [x]) == Letters(symbols) + [LetterOf(x)]
  {
    assert (symbols + [x])[..|symbols|] == symbols;
    ConcatAssociates(BitsOfSymbols(symbols), a, b);
  }

  lemma TakeSymbol(done: seq<bool>, buffer: nat, bits: nat, symbols: seq<quintet>, x: quintet)
    requires bits < 8 && done + Bits(buffer, bits) == BitsOfSymbols(symbols)
    ensures done + Bits(Low(Shl(buffer, 5) + x, 32), bits + 5) == BitsOfSymbols(symbols + [x])
  {
    ShiftInSymbol(buffer, bits, x);
    assert (symbols + [x])[..|symbols|] == symbols;
    ConcatAssociates(done, Bits(buffer, bits), Bits(x, 5));
  }

  lemma GiveOctet(data: seq<byte>, buffer: nat, bits: nat)
    ensures BitsOfBytes(data + [LowEight(Shr(buffer, bits))]) + Bits(buffer, bits) ==
            BitsOfBytes(data) + Bits(buffer, bits + 8)
  {
    ShiftOutOctet(buffer, bits);
    AppendOctet(data, LowEight(Shr(buffer, bits)), Bits(buffer, bits));
  }

  lemma ShiftInByte(buffer: nat, bits: nat, x: byte)
    requires bits < 5
    ensures Bits(Low(Shl(buffer, 8) + x, 64), bits + 8) == Bits(buffer, bits) + Bits(x, 8)
  {
    Pow2Values();
    BitsAppend(buffer, bits, x, 8);
    BitsOfLow(Shl(buffer, 8) + x, bits + 8, 64);
  }

  lemma ShiftInSymbol(buffer: nat, bits: nat, x: quintet)
    requires bits < 8
    ensures Bits(Low(Shl(buffer, 5) + x, 32), bits + 5) == Bits(buffer, bits) + Bits(x, 5)
  {
    Pow2Values();
    BitsAppend(buffer, bits, x, 5);
    BitsOfLow(Shl(buffer, 5) + x, bits + 5, 32);
  }

  lemma ShiftOutSymbol(buffer: nat, bits: nat)
    ensures Bits(buffer, bits + 5) == Bits(LowFive(Shr(buffer, bits)), 5) + Bits(buffer, bits)
  {
    Pow2Values();
    BitsSplit(buffer, 5, bits);
    BitsOfLow(Shr(buffer, bits), 5, 5);
  }

  lemma ShiftOutOctet(buffer: nat, bits: nat)
    ensures Bits(buffer, bits + 8) == Bits(LowEight(Shr(buffer, bits)), 8) + Bits(buffer, bits)
  {
    Pow2Values();
    BitsSplit(buffer, 8, bits);
    BitsOfLow(Shr(buffer, bits), 8, 8);
  }

  lemma LastGroup(buffer: nat, bits: nat)
    requires 0 < bits < 5
    ensures Bits(LowFive(Low(Shl(buffer, 5 - bits), 64)), 5) == Bits(buffer, bits) + Zeros(5 - bits)
  {
    var x := Shl(buffer, 5 - bits);
    Pow2Values();
    BitsOfShl(buffer, bits, 5 - bits);
    BitsOfLow(x, 5, 64);
    BitsOfLow(Low(x, 64), 5, 5);
  }

  lemma {:induction false} BitsOfShl(x: nat, n: nat, k: nat)
    ensures Bits(Shl(x, k), n + k) == Bits(x, n) + Zeros(k)
  {
    if k > 0 {
      BitsOfShl(x, n, k - 1);
      assert Bits(x, n) + Zeros(k) == (Bits(x, n) + Zeros(k - 1)) + [false];
    } else {
      assert Bits(x, n) + [] == Bits(x, n);
    }
  }

  lemma AppendSymbol(symbols: seq<quintet>, x: quintet, rest: seq<bool>)
    ensures BitsOfSymbols(symbols + [x]) + rest == BitsOfSymbols(symbols) + (Bits(x, 5) + rest)
    ensures Letters(symbols + [x]) == Letters(symbols) + [LetterOf(x)]
  {
    assert (symbols + [x])[..|symbols|] == symbols;
  }

  lemma AppendOctet(data: seq<byte>, x: byte, rest: seq<bool>)
    ensures BitsOfBytes(data + [x]) == BitsOfBytes(data) + Bits(x, 8)
    ensures BitsOfBytes(data + [x]) + rest == BitsOfBytes(data) + (Bits(x, 8) + rest)
  {
    assert (data + [x])[..|data|] == data;
  }

  // ----- regrouping is exact

  lemma {:induction false} BitsOfSymbolsCons(x: quintet, symbols: seq<quintet>)
    ensures BitsOfSymbols([x] + symbols) == Bits(x, 5) + BitsOfSymbols(symbols)
  {
    if symbols == [] {
      assert [x] + symbols == [x];
      assert [x][..0] == [];
    } else {
      var n := |symbols| - 1;
      BitsOfSymbolsCons(x, symbols[..n]);
      assert ([x] + symbols)[..n + 1] == [x] + symbols[..n];
    }
  }

  lemma {:induction false} BitsOfBytesCons(x: byte, data: seq<byte>)
    ensures BitsOfBytes([x] + data) == Bits(x, 8) + BitsOfBytes(data)
  {
    if data == [] {
      assert [x] + data == [x];
      assert [x][..0] == [];
    } else {
      var n := |data| - 1;
      BitsOfBytesCons(x, data[..n]);
      assert ([x] + data)[..n + 1] == [x] + data[..n];
      ConcatAssociates(Bits(x, 8), BitsOfBytes(data[..n]), Bits(data[n], 8));
    }
  }

  lemma {:induction false} SymbolsKeepBits(b: seq<bool>, groups: nat)
    requires |b| == 5 * groups
    ensures BitsOfSymbols(Symbols(b)) == b
    decreases groups
  {
    if groups > 0 {
      SymbolsKeepBits(b[5..], groups - 1);
      FirstSymbol(b);
      BitsOfSymbolsCons(Symbols(b)[0], Symbols(b[5..]));
      assert b == b[..5] + b[5..];
    }
  }

  lemma FirstSymbol(b: seq<bool>)
    requires |b| >= 5
    ensures |Symbols(b)| > 0 && Symbols(b) == [Symbols(b)[0]] + Symbols(b[5..]) && Bits(Symbols(b)[0], 5) == b[..5]
  {
    BitsOfValue(b[..5]);
  }

  lemma SplitAlike(a: seq<bool>, b: seq<bool>, c: seq<bool>, d: seq<bool>)
    requires a + b == c + d && |a| == |c|
    ensures a == c && b == d
  {
    assert (a + b)[..|a|] == a && (c + d)[..|c|] == c;
    assert (a + b)[|a|..] == b && (c + d)[|c|..] == d;
  }

  lemma {:induction false} SymbolsInjective(a: seq<quintet>, b: seq<quintet>)
    requires BitsOfSymbols(a) == BitsOfSymbols(b)
    ensures a == b
  {
    assert |BitsOfSymbols(a)| == |BitsOfSymbols(b)|;
    if a != [] {
      var n := |a| - 1;
      SplitAlike(BitsOfSymbols(a[..n]), Bits(a[n], 5), BitsOfSymbols(b[..n]), Bits(b[n], 5));
      SymbolsInjective(a[..n], b[..n]);
      BitsInjective(a[n], b[n]);
      assert a == a[..n] + [a[n]] && b == b[..n] + [b[n]];
    }
  }

  lemma BitsInjective(x: quintet, y: quintet)
    requires Bits(x, 5) == Bits(y, 5)
    ensures x == y
  {
    Pow2Values();
    ValueOfBits(x, 5);
    ValueOfBits(y, 5);
  }

  /** The loops and the regrouping agree, because the bits determine the symbols. */
  lemma {:induction false} OctetsUnique(b: seq<bool>, data: seq<byte>, rest: seq<bool>)
    requires b == BitsOfBytes(data) + rest && |rest| < 8
    ensures Octets(b) == data
  {
    if data != [] {
      var x := data[0];
      assert data == [x] + data[1..];
      BitsOfBytesCons(x, data[1..]);
      assert b[..8] == Bits(x, 8) && b[8..] == BitsOfBytes(data[1..]) + rest;
      OctetsUnique(b[8..], data[1..], rest);
      Pow2Values();
      ValueOfBits(x, 8);
    }
  }

  lemma {:induction false} ForeignCharacter(text: string, n: nat)
    requires n <= |text| && SymbolsOf(text[..n]) == None
    ensures SymbolsOf(text) == None
  {
    if n == |text| {
      assert text[..n] == text;
    } else {
      var m := |text| - 1;
      assert text[..m][..n] == text[..n];
      ForeignCharacter(text[..m], n);
    }
  }

  // ----- the laws of the codec

  lemma SymbolOfLetter(x: quintet)
    ensures !Skipped(LetterOf(x)) && SymbolOf(LetterOf(x)) == Some(x)
  {
  }

  lemma {:induction false} SymbolsOfSnoc(front: string, c: char)
    requires SymbolsOf(front).Some? && !Skipped(c) && SymbolOf(c).Some?
    ensures SymbolsOf(front + [c]) == Some(SymbolsOf(front).value + [SymbolOf(c).value])
  {
    assert (front + [c])[..|front|] == front;
  }

  lemma {:induction false} OneMoreLetter(front: seq<quintet>, x: quintet)
    requires SymbolsOf(Letters(front)) == Some(front)
    ensures SymbolsOf(Letters(front + [x])) == Some(front + [x])
  {
    SymbolOfLetter(x);
    SymbolsOfSnoc(Letters(front), LetterOf(x));
    assert (front + [x])[..|front|] == front;
  }

  lemma {:induction false} SymbolsOfLetters(symbols: seq<quintet>)
    ensures SymbolsOf(Letters(symbols)) == Some(symbols)
  {
    if symbols != [] {
      var n := |symbols| - 1;
      SymbolsOfLetters(symbols[..n]);
      OneMoreLetter(symbols[..n], symbols[n]);
      assert symbols == symbols[..n] + [symbols[n]];
    }
  }

  /** Every byte sequence, of any length, survives encoding and decoding. */
  lemma {:induction false} RoundTrip(data: seq<byte>)
    ensures Decode(Encode(data)) == Some(data)
    ensures |Encode(data)| == (8 * |data| + 4) / 5
  {
    var b := BitsOfBytes(data);
    SymbolsOfLetters(Symbols(Padded(b)));
    OctetsOfPadded(data);
  }

  lemma {:induction false} OctetsOfPadded(data: seq<byte>)
    ensures Octets(BitsOfSymbols(Symbols(Padded(BitsOfBytes(data))))) == data
  {
    var b := BitsOfBytes(data);
    SymbolsKeepBits(Padded(b), (|b| + 4) / 5);
    OctetsUnique(Padded(b), data, Zeros(Padding(b)));
  }

  /** No letter of either case, no digit 2 to 7, and not skipped. */
  predicate IsForeign(c: char) {
    !Skipped(c) && SymbolOf(c) == None
  }

  ghost predicate HasForeign(text: string) {
    exists i :: 0 <= i < |text| && IsForeign(text[i])
  }

  lemma HasForeignSnoc(front: string, c: char)
    ensures HasForeign(front + [c]) <==> HasForeign(front) || IsForeign(c)
  {
    var text := front + [c];
    if HasForeign(front) {
      var i :| 0 <= i < |front| && IsForeign(front[i]);
      assert text[i] == front[i];
    }
    if IsForeign(c) {
      assert text[|front|] == c;
    }
  }

  lemma {:induction false} NoneSnoc(front: string, c: char)
    ensures SymbolsOf(front + [c]) == None <==> SymbolsOf(front) == None || IsForeign(c)
  {
    assert (front + [c])[..|front|] == front;
  }

  /** Decoding fails exactly at a foreign character. */
  lemma {:induction false} DecodeFailsIff(text: string)
    ensures Decode(text) == None <==> HasForeign(text)
  {
    if text != "" {
      var n := |text| - 1;
      DecodeFailsIff(text[..n]);
      HasForeignSnoc(text[..n], text[n]);
      NoneSnoc(text[..n], text[n]);
      assert text == text[..n] + [text[n]];
    }
  }

  /** Upper-case letters only, a length that whole octets produce, and zero padding bits. */
  predicate Canonical(text: string) {
    && (forall i :: 0 <= i < |text| ==> IsLetter(text[i]))
    && 5 * |text| % 8 < 5
    && SymbolsOf(text).Some?
    && var b := BitsOfSymbols(SymbolsOf(text).value);
       |b| == 5 * |text| && b[8 * (|b| / 8)..] == Zeros(|b| % 8)
  }

  predicate IsLetter(c: char) {
    'A' <= c <= 'Z' || '2' <= c <= '7'
  }

  lemma LetterOfSymbol(c: char)
    requires IsLetter(c)
    ensures !Skipped(c) && SymbolOf(c).Some? && LetterOf(SymbolOf(c).value) == c
  {
  }

  lemma {:induction false} LettersOfSymbols(text: string)
    requires forall i :: 0 <= i < |text| ==> IsLetter(text[i])
    ensures SymbolsOf(text).Some? && |SymbolsOf(text).value| == |text| && Letters(SymbolsOf(text).value) == text
  {
    if text != "" {
      var n := |text| - 1;
      LettersOfSymbols(text[..n]);
      LetterOfSymbol(text[n]);
      var front, x := SymbolsOf(text[..n]).value, SymbolOf(text[n]).value;
      assert text == text[..n] + [text[n]];
      assert (front + [x])[..n] == front;
    }
  }

  lemma FirstOctet(b: seq<bool>)
    requires |b| >= 8
    ensures |Octets(b)| > 0 && Octets(b) == [Octets(b)[0]] + Octets(b[8..]) && Bits(Octets(b)[0], 8) == b[..8]
  {
    BitsOfValue(b[..8]);
  }

  lemma {:induction false} OctetsKeepBits(b: seq<bool>)
    ensures BitsOfBytes(Octets(b)) == b[..8 * (|b| / 8)]
  {
    if |b| >= 8 {
      var rest := b[8..];
      OctetsKeepBits(rest);
      FirstOctet(b);
      BitsOfBytesCons(Octets(b)[0], Octets(rest));
      assert 8 * (|b| / 8) == 8 + 8 * (|rest| / 8);
      assert b[..8 * (|b| / 8)] == b[..8] + rest[..8 * (|rest| / 8)];
    }
  }

  /** Decoding loses nothing exactly on the texts that encoding produces. */
  lemma {:induction false} ReencodeIffCanonical(text: string)
    requires Decode(text).Some?
    ensures Encode(Decode(text).value) == text <==> Canonical(text)
  {
    if Canonical(text) {
      CanonicalReencodes(text);
    }
    if Encode(Decode(text).value) == text {
      EncodedIsCanonical(Decode(text).value);
    }
  }

  lemma CanonicalReencodes(text: string)
    requires Canonical(text) && Decode(text).Some?
    ensures Encode(Decode(text).value) == text
  {
    var symbols, data := SymbolsOf(text).value, Decode(text).value;
    var b := BitsOfSymbols(symbols);
    LettersOfSymbols(text);
    OctetsKeepBits(b);
    assert b == b[..8 * (|b| / 8)] + b[8 * (|b| / 8)..];
    AllWritten(data, symbols, |b| % 8);
  }

  lemma EncodedIsCanonical(data: seq<byte>)
    ensures Canonical(Encode(data))
  {
    var whole := BitsOfBytes(data);
    var symbols := Symbols(Padded(whole));
    SymbolsOfLetters(symbols);
    SymbolsKeepBits(Padded(whole), (|whole| + 4) / 5);
    LettersAreCanonical(symbols);
    TrailingBits(whole, Zeros(Padding(whole)), |data|);
  }

  lemma TrailingBits(whole: seq<bool>, tail: seq<bool>, n: nat)
    requires |whole| == 8 * n && |tail| < 5
    ensures var b := whole + tail;
            8 * (|b| / 8) == |whole| && |b| % 8 == |tail| && b[8 * (|b| / 8)..] == tail
  {
  }

  lemma {:induction false} LettersAreCanonical(symbols: seq<quintet>)
    ensures forall i :: 0 <= i < |symbols| ==> IsLetter(Letters(symbols)[i])
  {
    if symbols != [] {
      LettersAreCanonical(symbols[..|symbols| - 1]);
    }
  }
}
