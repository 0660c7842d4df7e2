/**
 The z-base-32 text of a signature: the registry's decoder (lij-worker/src/index.js) and the signer's
 encoder (lij-worker/test-register-sig.mjs). Both shift a 32-bit accumulator that wraps and is never
 masked.
 */
module Zbase32 {
  import opened Text

  /** A five-bit digit: a place in the alphabet ybndrfg8ejkmcpqxot1uwisza345h769. */
  type Digit = bv5

  function CharOf(d: Digit): char {
    match d
    case 0 => 'y' case 1 => 'b' case 2 => 'n' case 3 => 'd' case 4 => 'r' case 5 => 'f' case 6 => 'g' case 7 => '8'
    case 8 => 'e' case 9 => 'j' case 10 => 'k' case 11 => 'm' case 12 => 'c' case 13 => 'p' case 14 => 'q'
    case 15 => 'x'
    case 16 => 'o' case 17 => 't' case 18 => '1' case 19 => 'u' case 20 => 'w' case 21 => 'i' case 22 => 's'
    case 23 => 'z'
    case 24 => 'a' case 25 => '3' case 26 => '4' case 27 => '5' case 28 => 'h' case 29 => '7' case 30 => '6'
    case _ => '9'
  }

  function DigitOf(c: char): Option<Digit> {
    match c
    case 'y' => Some(0) case 'b' => Some(1) case 'n' => Some(2) case 'd' => Some(3)
    case 'r' => Some(4) case 'f' => Some(5) case 'g' => Some(6) case '8' => Some(7)
    case 'e' => Some(8) case 'j' => Some(9) case 'k' => Some(10) case 'm' => Some(11)
    case 'c' => Some(12) case 'p' => Some(13) case 'q' => Some(14) case 'x' => Some(15)
    case 'o' => Some(16) case 't' => Some(17) case '1' => Some(18) case 'u' => Some(19)
    case 'w' => Some(20) case 'i' => Some(21) case 's' => Some(22) case 'z' => Some(23)
    case 'a' => Some(24) case '3' => Some(25) case '4' => Some(26) case '5' => Some(27)
    case 'h' => Some(28) case '7' => Some(29) case '6' => Some(30) case '9' => Some(31)
    case _ => None
  }

  /** `toLowerCase`, as far as it can reach the alphabet: the capitals, and the Kelvin sign. */
  function Lower(c: char): char {
    if 'A' <= c <= 'Z' then c + ' ' else if c == '\U{212A}' then 'k' else c
  }

  /** The alphabet, in its order. */
  lemma AlphabetSpelled(d: Digit)
    ensures CharOf(d) == "ybndrfg8ejkmcpqxot1uwisza345h769"[d as int]
  {
  }

  lemma DigitRoundTrip(d: Digit)
    ensures DigitOf(Lower(CharOf(d))) == Some(d)
  {
  }

  /** Shift right by a count below 8; shift left by one below 5. */
  function Shr(x: bv32, k: nat): bv32
    requires k < 8
  {
    match k
    case 0 => x case 1 => x >> 1 case 2 => x >> 2 case 3 => x >> 3
    case 4 => x >> 4 case 5 => x >> 5 case 6 => x >> 6 case _ => x >> 7
  }

  function Shl(x: bv32, k: nat): bv32
    requires k < 5
  {
    match k case 0 => x case 1 => x << 1 case 2 => x << 2 case 3 => x << 3 case _ => x << 4
  }

  /** The low `k` bits, k below 8. */
  function Low(x: bv32, k: nat): bv32
    requires k < 8
  {
    match k
    case 0 => 0 case 1 => x & 1 case 2 => x & 3 case 3 => x & 7
    case 4 => x & 15 case 5 => x & 31 case 6 => x & 63 case _ => x & 127
  }

  function Byte(x: bv32): bv8 { (x & 0xFF) as bv8 }

  function Five(x: bv32): Digit { (x & 31) as bv5 }

  /** The accumulator after five more bits, and after eight. */
  function Push5(acc: bv32, d: Digit): bv32 { (acc << 5) | (d as bv32) }

  function Push8(acc: bv32, b: bv8): bv32 { (acc << 8) | (b as bv32) }

  /******* The two functions on clean accumulators *******/

  /** The bytes of the digits still to come, with `bits` bits pending in `p`. */
  function Bytes(p: bv32, bits: nat, digits: seq<Digit>): seq<bv8>
    requires bits < 8
    decreases |digits|
  {
    if digits == [] then []
    else
      var x := Push5(p, digits[0]);
      if bits >= 3 then [Byte(Shr(x, bits - 3))] + Bytes(Low(x, bits - 3), bits - 3, digits[1..])
      else Bytes(x, bits + 5, digits[1..])
  }

  /** The digits of the bytes still to come, with `e` bits pending in `p`. */
  function Digits5(p: bv32, e: nat, bytes: seq<bv8>): seq<Digit>
    requires e < 5
    decreases |bytes|
  {
    if bytes == [] then (if e > 0 then [Five(Shl(p, 5 - e))] else [])
    else
      var x := Push8(p, bytes[0]);
      if e >= 2 then [Five(Shr(x, e + 3)), Five(Shr(x, e - 2))] + Digits5(Low(x, e - 2), e - 2, bytes[1..])
      else [Five(Shr(x, e + 3))] + Digits5(Low(x, e + 3), e + 3, bytes[1..])
  }

  lemma BytesCons(p: bv32, bits: nat, d: Digit, rest: seq<Digit>)
    requires bits < 8
    ensures
      var x := Push5(p, d);
      Bytes(p, bits, [d] + rest) ==
      if bits >= 3 then [Byte(Shr(x, bits - 3))] + Bytes(Low(x, bits - 3), bits - 3, rest)
      else Bytes(x, bits + 5, rest)
  {
    hide Push5, Shr, Low, Byte;
    assert ([d] + rest)[1..] == rest;
  }

  /******* Between two bytes *******/

  /** Of the last byte the encoder still holds the low `e` bits and the decoder the others. */
  function EncoderHolds(l: bv8, e: nat): bv32
    requires e < 5
  { Low(l as bv32, e) }

  function DecoderHolds(l: bv8, e: nat): bv32
    requires e < 5
  { if e == 0 then 0 else Shr(l as bv32, e) }

  function BitsHeld(e: nat): nat
    requires e < 5
  { if e == 0 then 0 else 8 - e }

  /** The last pending bits, padded, give the last byte. */
  lemma LastBits(l: bv8, e: nat)
    requires 0 < e < 5
    ensures Byte(Shr(Push5(DecoderHolds(l, e), Five(Shl(EncoderHolds(l, e), 5 - e))), 5 - e)) == l
  {
  }

  /** The next byte, when no bit is pending, and when one is: one digit, and the last byte if it was
      not out yet. */
  lemma FirstDigit(l: bv8, b: bv8)
    ensures
      var x := Push8(EncoderHolds(l, 0), b);
      Low(x, 3) == EncoderHolds(b, 3) && Push5(DecoderHolds(l, 0), Five(Shr(x, 3))) == DecoderHolds(b, 3)
  {
  }

  lemma OneDigit(l: bv8, b: bv8)
    ensures
      var x := Push8(EncoderHolds(l, 1), b);
      var y := Push5(DecoderHolds(l, 1), Five(Shr(x, 4)));
      Low(x, 4) == EncoderHolds(b, 4) && Byte(Shr(y, 4)) == l && Low(y, 4) == DecoderHolds(b, 4)
  {
  }

  /** The next byte otherwise: two digits, the last byte, and this one too if that leaves no bits. */
  lemma TwoDigits(l: bv8, e: nat, b: bv8)
    requires 2 <= e < 5
    ensures
      var x := Push8(EncoderHolds(l, e), b);
      var y := Push5(DecoderHolds(l, e), Five(Shr(x, e + 3)));
      var z := Push5(Low(y, 5 - e), Five(Shr(x, e - 2)));
      && Low(x, e - 2) == EncoderHolds(b, e - 2)
      && Byte(Shr(y, 5 - e)) == l
      && (if e == 2 then Byte(Shr(z, 0)) == b && Low(z, 0) == DecoderHolds(b, 0) else z == DecoderHolds(b, e - 2))
  {
    if e == 2 {} else if e == 3 {} else {}
  }

  /** What `Interleave` says of one position. */
  ghost predicate Interleaved(l: bv8, e: nat, bytes: seq<bv8>)
    requires e < 5
  {
    Bytes(DecoderHolds(l, e), BitsHeld(e), Digits5(EncoderHolds(l, e), e, bytes))
    == (if e == 0 then [] else [l]) + bytes
  }

  lemma InterleaveOne(l: bv8, e: nat, b: bv8, rest: seq<bv8>)
    requires e < 2 && Interleaved(b, e + 3, rest)
    ensures Interleaved(l, e, [b] + rest)
  {
    if e == 0 { FirstDigit(l, b); } else { OneDigit(l, b); }
    hide Push5, Push8, Shr, Shl, Low, Byte, Five, EncoderHolds, DecoderHolds, Bytes;
    assert ([b] + rest)[1..] == rest;
    var x := Push8(EncoderHolds(l, e), b);
    var more := Digits5(Low(x, e + 3), e + 3, rest);
    BytesCons(DecoderHolds(l, e), BitsHeld(e), Five(Shr(x, e + 3)), more);
    assert Digits5(EncoderHolds(l, e), e, [b] + rest) == [Five(Shr(x, e + 3))] + more;
  }

  lemma InterleaveTwo(l: bv8, e: nat, b: bv8, rest: seq<bv8>)
    requires 2 <= e < 5 && Interleaved(b, e - 2, rest)
    ensures Interleaved(l, e, [b] + rest)
  {
    TwoDigits(l, e, b);
    hide Push5, Push8, Shr, Shl, Low, Byte, Five, EncoderHolds, DecoderHolds, Bytes;
    assert ([b] + rest)[1..] == rest;
    var q, x := DecoderHolds(l, e), Push8(EncoderHolds(l, e), b);
    var first, second, more := Five(Shr(x, e + 3)), Five(Shr(x, e - 2)), Digits5(Low(x, e - 2), e - 2, rest);
    assert Digits5(EncoderHolds(l, e), e, [b] + rest) == [first, second] + more;
    assert [first, second] + more == [first] + ([second] + more);
    var pending := Low(Push5(q, first), 5 - e);
    assert Bytes(q, 8 - e, [first] + ([second] + more)) == [l] + Bytes(pending, 5 - e, [second] + more) by {
      BytesCons(q, 8 - e, first, [second] + more);
    }
    assert Bytes(pending, 5 - e, [second] + more) == [b] + rest by {
      BytesCons(pending, 5 - e, second, more);
      assert [] + rest == rest;
    }
  }

  lemma {:induction false} Interleave(l: bv8, e: nat, bytes: seq<bv8>)
    requires e < 5
    ensures Interleaved(l, e, bytes)
    decreases |bytes|
  {
    hide Push5, Push8, Shr, Shl, Low, Byte, Five, EncoderHolds, DecoderHolds;
    if bytes == [] {
      if e > 0 {
        LastBits(l, e);
        var last := Five(Shl(EncoderHolds(l, e), 5 - e));
        BytesCons(DecoderHolds(l, e), 8 - e, last, []);
        assert [last] + [] == [last];
      }
    } else {
      assert bytes == [bytes[0]] + bytes[1..];
      if e < 2 {
        Interleave(bytes[0], e + 3, bytes[1..]);
        InterleaveOne(l, e, bytes[0], bytes[1..]);
      } else {
        Interleave(bytes[0], e - 2, bytes[1..]);
        InterleaveTwo(l, e, bytes[0], bytes[1..]);
      }
    }
  }

  /******* The text *******/

  function TextOf(ds: seq<Digit>): string {
    if ds == [] then "" else [CharOf(ds[0])] + TextOf(ds[1..])
  }

  function Prepend(head: seq<bv8>, tail: Option<seq<bv8>>): Option<seq<bv8>> {
    match tail case None => None case Some(bytes) => Some(head + bytes)
  }

  lemma PrependPrepend(a: seq<bv8>, b: seq<bv8>, tail: Option<seq<bv8>>)
    ensures Prepend(a, Prepend(b, tail)) == Prepend(a + b, tail) && Prepend([], tail) == tail
  {
    if tail.Some? { assert a + (b + tail.value) == (a + b) + tail.value && [] + tail.value == tail.value; }
  }

  /** What the rest of a text decodes to; none when it leaves the alphabet. */
  function DecodeFrom(p: bv32, bits: nat, text: string): Option<seq<bv8>>
    requires bits < 8
    decreases |text|
  {
    if text == "" then Some([])
    else
      match DigitOf(Lower(text[0]))
      case None => None
      case Some(d) =>
        var x := Push5(p, d);
        if bits >= 3 then Prepend([Byte(Shr(x, bits - 3))], DecodeFrom(Low(x, bits - 3), bits - 3, text[1..]))
        else DecodeFrom(x, bits + 5, text[1..])
  }

  lemma {:induction false} DecodeReadsDigits(p: bv32, bits: nat, ds: seq<Digit>)
    requires bits < 8
    ensures DecodeFrom(p, bits, TextOf(ds)) == Some(Bytes(p, bits, ds))
    decreases |ds|
  {
    if ds != [] {
      DigitRoundTrip(ds[0]);
      hide Push5, Shr, Low, Byte, DigitOf, CharOf, Lower;
      assert TextOf(ds)[0] == CharOf(ds[0]) && TextOf(ds)[1..] == TextOf(ds[1..]);
      var x := Push5(p, ds[0]);
      if bits >= 3 {
        DecodeReadsDigits(Low(x, bits - 3), bits - 3, ds[1..]);
      } else {
        DecodeReadsDigits(x, bits + 5, ds[1..]);
      }
    }
  }

  /** Decoding the encoding of any bytes gives them back, with no byte more. */
  lemma RoundTrip(bytes: seq<bv8>)
    ensures DecodeFrom(0, 0, TextOf(Digits5(0, 0, bytes))) == Some(bytes)
  {
    Interleave(0, 0, bytes);
    LowOfNothing(0);
    assert EncoderHolds(0, 0) == 0 && [] + bytes == bytes;
    DecodeReadsDigits(0, 0, Digits5(0, 0, bytes));
  }

  /** What is read as a digit is that digit's character, */
  lemma DigitIsItsChar(c: char)
    ensures DigitOf(c).Some? ==> CharOf(DigitOf(c).value) == c
  {
  }

  /** or the capital of it. */
  lemma CapitalsRead(c: char)
    ensures 'A' <= c <= 'Z' ==> DigitOf(Lower(c)) == DigitOf(c - 'A' + 'a')
    ensures !('A' <= c <= 'Z') && c != '\U{212A}' ==> DigitOf(Lower(c)) == DigitOf(c)
  {
    hide DigitOf;
  }

  /** A text with any other character is refused. */
  lemma {:induction false} OtherRefused(p: bv32, bits: nat, text: string, i: nat)
    requires bits < 8 && i < |text| && DigitOf(Lower(text[i])).None?
    ensures DecodeFrom(p, bits, text) == None
    decreases |text|
  {
    hide Push5, Shr, Low, Byte, DigitOf, Lower;
    if i > 0 && DigitOf(Lower(text[0])).Some? {
      var x := Push5(p, DigitOf(Lower(text[0])).value);
      if bits >= 3 {
        OtherRefused(Low(x, bits - 3), bits - 3, text[1..], i - 1);
      } else {
        OtherRefused(x, bits + 5, text[1..], i - 1);
      }
    }
  }

  /** The alphabet's own examples: three bytes in five digits, the highest bits first, zeros at the end. */
  lemma Vectors()
    ensures TextOf(Digits5(0, 0, [0xF0, 0xBF, 0xC7])) == "6n9hq" && TextOf(Digits5(0, 0, [0xD4, 0x7A, 0x04])) == "4t7ye"
  {
    VectorDigits();
    hide Digits5, TextOf;
    var a: seq<Digit>, b: seq<Digit> := [30, 2, 31, 28, 14], [26, 17, 29, 0, 8];
    FiveChars(30, 2, 31, 28, 14);
    FiveChars(26, 17, 29, 0, 8);
  }

  lemma FiveChars(a: Digit, b: Digit, c: Digit, d: Digit, e: Digit)
    ensures TextOf([a, b, c, d, e]) == [CharOf(a), CharOf(b), CharOf(c), CharOf(d), CharOf(e)]
  {
    hide CharOf;
    TextCons(e, []);
    TextCons(d, [e]);
    TextCons(c, [d, e]);
    TextCons(b, [c, d, e]);
    TextCons(a, [b, c, d, e]);
  }

  lemma TextCons(d: Digit, rest: seq<Digit>)
    ensures TextOf([d] + rest) == [CharOf(d)] + TextOf(rest)
  {
    hide CharOf;
    assert ([d] + rest)[1..] == rest;
  }

  lemma VectorDigits()
    ensures Digits5(0, 0, [0xF0, 0xBF, 0xC7]) == [30, 2, 31, 28, 14]
    ensures Digits5(0, 0, [0xD4, 0x7A, 0x04]) == [26, 17, 29, 0, 8]
  {
    var x: seq<bv8>, y: seq<bv8> := [0xF0, 0xBF, 0xC7], [0xD4, 0x7A, 0x04];
    assert x[1..] == [0xBF, 0xC7] && x[1..][1..] == [0xC7] && x[1..][1..][1..] == [];
    assert y[1..] == [0x7A, 0x04] && y[1..][1..] == [0x04] && y[1..][1..][1..] == [];
    assert Digits5(1, 1, [0xC7]) == [28, 14];
    assert Digits5(0, 3, [0xBF, 0xC7]) == [2, 31] + [28, 14];
    assert Digits5(0, 1, [0x04]) == [0, 8];
    assert Digits5(4, 3, [0x7A, 0x04]) == [17, 29] + [0, 8];
  }

  /******* The loops, on accumulators that are never masked *******/

  /** Only the pending bits of the accumulator matter to the decoder. */
  lemma DecoderStep(acc: bv32, bits: nat, d: Digit)
    requires bits < 8
    ensures bits >= 3 ==>
      && Byte(Shr(Push5(acc, d), bits - 3)) == Byte(Shr(Push5(Low(acc, bits), d), bits - 3))
      && Low(Push5(acc, d), bits - 3) == Low(Push5(Low(acc, bits), d), bits - 3)
    ensures bits < 3 ==> Low(Push5(acc, d), bits + 5) == Push5(Low(acc, bits), d)
  {
    if bits == 0 {} else if bits == 1 {} else if bits == 2 {} else if bits == 3 {}
    else if bits == 4 {} else if bits == 5 {} else if bits == 6 {} else {}
  }

  lemma EncoderDigit(acc: bv32, e: nat, b: bv8)
    requires e < 5
    ensures Five(Shr(Push8(acc, b), e + 3)) == Five(Shr(Push8(Low(acc, e), b), e + 3))
  {
    if e == 0 {} else if e == 1 {} else if e == 2 {} else if e == 3 {} else {}
  }

  /** Nor to the encoder. */
  lemma EncoderStep(acc: bv32, e: nat, b: bv8)
    requires e < 5
    ensures e >= 2 ==>
      && Five(Shr(Push8(acc, b), e - 2)) == Five(Shr(Push8(Low(acc, e), b), e - 2))
      && Low(Push8(acc, b), e - 2) == Low(Push8(Low(acc, e), b), e - 2)
    ensures e < 2 ==> Low(Push8(acc, b), e + 3) == Low(Push8(Low(acc, e), b), e + 3)
  {
    if e == 0 {} else if e == 1 {} else if e == 2 {} else if e == 3 {} else {}
  }

  lemma EncoderEnd(acc: bv32, e: nat)
    requires 0 < e < 5
    ensures Five(Shl(acc, 5 - e)) == Five(Shl(Low(acc, e), 5 - e))
  {
    if e == 1 {} else if e == 2 {} else if e == 3 {} else {}
  }

  method Decode(text: string) returns (out: Option<seq<bv8>>)
    ensures out == DecodeFrom(0, 0, text)
  {
    hide Push5, Shr, Low, Byte, DigitOf, Lower;
    var bits, acc: bv32 := 0, 0;
    var bytes: seq<bv8> := [];
    LowOfNothing(0);
    PrependPrepend([], [], DecodeFrom(0, 0, text));
    assert text[0..] == text;
    for i := 0 to |text|
      invariant bits < 8
      invariant DecodeFrom(0, 0, text) == Prepend(bytes, DecodeFrom(Low(acc, bits), bits, text[i..]))
    {
      var c := text[i];
      assert text[i..][0] == c && text[i..][1..] == text[i + 1..];
      var v := DigitOf(Lower(c));
      if v.None? {
        return None;
      }
      DecoderStep(acc, bits, v.value);
      acc := Push5(acc, v.value);
      bits := bits + 5;
      if bits >= 8 {
        bits := bits - 8;
        PrependPrepend(bytes, [Byte(Shr(acc, bits))], DecodeFrom(Low(acc, bits), bits, text[i + 1..]));
        bytes := bytes + [Byte(Shr(acc, bits))];
      }
    }
    assert text[|text|..] == "" && bytes + [] == bytes;
    out := Some(bytes);
  }

  /** One byte into the encoder: the digits it gives, and what is left of the text. */
  lemma EncoderTakes(acc: bv32, e: nat, b: bv8, rest: seq<bv8>)
    requires e < 5
    ensures
      var x := Push8(acc, b);
      TextOf(Digits5(Low(acc, e), e, [b] + rest)) ==
      [CharOf(Five(Shr(x, e + 3)))] +
      if e < 2 then TextOf(Digits5(Low(x, e + 3), e + 3, rest))
      else [CharOf(Five(Shr(x, e - 2)))] + TextOf(Digits5(Low(x, e - 2), e - 2, rest))
  {
    hide Push8, Shr, Low, Five, CharOf;
    EncoderDigit(acc, e, b);
    EncoderStep(acc, e, b);
    assert ([b] + rest)[1..] == rest;
  }

  lemma EncoderLast(acc: bv32, e: nat)
    requires e < 5
    ensures TextOf(Digits5(Low(acc, e), e, [])) == if e > 0 then [CharOf(Five(Shl(acc, 5 - e)))] else ""
  {
    hide Shl, Low, Five, CharOf;
    if e > 0 { EncoderEnd(acc, e); }
  }

  lemma LowOfNothing(acc: bv32)
    ensures Low(acc, 0) == 0
  {
  }

  method Encode(bytes: seq<bv8>) returns (text: string)
    ensures text == TextOf(Digits5(0, 0, bytes))
  {
    hide Push8, Shr, Shl, Low, Five, CharOf, Digits5, TextOf;
    var bits, acc: bv32 := 0, 0;
    text := "";
    LowOfNothing(0);
    assert bytes[0..] == bytes;
    for i := 0 to |bytes|
      invariant bits < 5
      invariant TextOf(Digits5(0, 0, bytes)) == text + TextOf(Digits5(Low(acc, bits), bits, bytes[i..]))
    {
      assert bytes[i..] == [bytes[i]] + bytes[i + 1..];
      EncoderTakes(acc, bits, bytes[i], bytes[i + 1..]);
      acc := Push8(acc, bytes[i]);
      ghost var e, was := bits, text;
      bits := bits + 8;
      while bits >= 5
        invariant
          || (bits == e + 8 && text == was)
          || (bits == e + 3 && text == was + [CharOf(Five(Shr(acc, e + 3)))])
          || (bits == e - 2 && text == was + [CharOf(Five(Shr(acc, e + 3))), CharOf(Five(Shr(acc, e - 2)))])
      {
        bits := bits - 5;
        text := text + [CharOf(Five(Shr(acc, bits)))];
      }
    }
    assert bytes[|bytes|..] == [];
    EncoderLast(acc, bits);
    if bits > 0 {
      text := text + [CharOf(Five(Shl(acc, 5 - bits)))];
    }
  }
}
