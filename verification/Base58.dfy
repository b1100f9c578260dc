/**
 Base58 as this repository writes it (`blockchain_go/base58.go`). Both directions range over the
 indices of their input where they mean its bytes, so encoding puts exactly one `1` in front of any
 non-empty input, and decoding drops the first character of its input whatever it is and puts one
 zero byte in its place. Text is a string of characters; arbitrary precision is what the code has.
 */
module Base58 {
  import opened Collections
  import opened Bytes
  import opened Rlp

  const BASE := 58

  /** The alphabet: digits and letters in ASCII order, without 0, I, O and l. */
  function Digit(d: nat): (c: char)
    requires d < BASE
  {
    if d < 9 then '1' + d as char
    else if d < 17 then 'A' + (d - 9) as char
    else if d < 22 then 'J' + (d - 17) as char
    else if d < 33 then 'P' + (d - 22) as char
    else if d < 44 then 'a' + (d - 33) as char
    else 'm' + (d - 44) as char
  }

  /** The alphabet is exactly the digits and letters without 0, I, O and l, in the order of their codes. */
  lemma AlphabetInOrder()
    ensures forall d, e :: 0 <= d < e < BASE ==> Digit(d) < Digit(e)
    ensures forall c :: (exists d :: 0 <= d < BASE && Digit(d) == c) <==> IsAlphabetic(c)
  {
    forall c | IsAlphabetic(c) ensures exists d :: 0 <= d < BASE && Digit(d) == c {
      assert 0 <= IndexOf(c) < BASE && Digit(IndexOf(c)) == c;
    }
  }

  predicate IsAlphabetic(c: char) {
    ('1' <= c <= '9') || ('A' <= c <= 'Z' && c != 'I' && c != 'O') || ('a' <= c <= 'z' && c != 'l')
  }

  /** The place of a character in the alphabet, or -1: `bytes.IndexByte`. */
  function IndexOf(c: char): (i: int)
    ensures -1 <= i < BASE
    ensures i >= 0 ==> Digit(i) == c
    ensures forall d :: 0 <= d < BASE && Digit(d) == c ==> i == d
  {
    if '1' <= c <= '9' then c as int - '1' as int
    else if 'A' <= c <= 'H' then c as int - 'A' as int + 9
    else if 'J' <= c <= 'N' then c as int - 'J' as int + 17
    else if 'P' <= c <= 'Z' then c as int - 'P' as int + 22
    else if 'a' <= c <= 'k' then c as int - 'a' as int + 33
    else if 'm' <= c <= 'z' then c as int - 'm' as int + 44
    else -1
  }

  function Numeral(n: nat): (s: string)
    ensures s == [] <==> n == 0
    ensures s != [] ==> s[0] != '1'
  {
    if n == 0 then [] else Numeral(n / BASE) + [Digit(n % BASE)]
  }

  /** What the decoder adds up; a character outside the alphabet counts as minus one. */
  function Value(s: string): int {
    if s == [] then 0 else Value(s[..|s| - 1]) * BASE + IndexOf(s[|s| - 1])
  }

  function Magnitude(v: int): nat { if v < 0 then -v else v }

  function Encoded(input: seq<byte>): string {
    (if input == [] then [] else ['1']) + Numeral(Number(input))
  }

  function Decoded(text: string): seq<byte> {
    if text == [] then [] else [0] + BigEndian(Magnitude(Value(text[1..])))
  }

  /** `ReverseBytes` */
  method ReverseBytes(data: array<char>)
    modifies data
    ensures data[..] == Reversed(old(data[..]))
  {
    var i, j := 0, data.Length - 1;
    while i < j
      invariant 0 <= i <= j + 1 && i + j == data.Length - 1
      invariant forall k :: 0 <= k < i || j < k < data.Length ==> data[k] == old(data[data.Length - 1 - k])
      invariant forall k :: i <= k <= j ==> data[k] == old(data[k])
    {
      data[i], data[j] := data[j], data[i];
      i, j := i + 1, j - 1;
    }
    ghost var before := old(data[..]);
    assert forall k :: 0 <= k < data.Length ==> data[k] == before[data.Length - 1 - k];
  }

  lemma ReversedOnto(s: string, c: char)
    ensures Reversed(s + [c]) == [c] + Reversed(s)
  {
  }

  lemma NothingTaken(x: nat)
    ensures Numeral(x) + Reversed([]) == Numeral(x)
  {
  }

  lemma NothingLeft()
    ensures Numeral(0) == []
  {
  }

  /** One digit moves from the number to the digits collected, which are in reverse. */
  lemma DigitTaken(x: nat, digits: string)
    requires x != 0
    ensures Numeral(x) + Reversed(digits) == Numeral(x / BASE) + Reversed(digits + [Digit(x % BASE)])
  {
    hide Digit, Reversed;
    ReversedOnto(digits, Digit(x % BASE));
    assert Numeral(x) + Reversed(digits) == Numeral(x / BASE) + ([Digit(x % BASE)] + Reversed(digits));
  }

  method Base58Encode(input: seq<byte>) returns (text: string)
    ensures text == Encoded(input)
  {
    hide Number, Digit, Numeral, Reversed;
    var x: nat := Number(input);
    var digits: string := [];
    NothingTaken(x);
    while x != 0
      invariant Numeral(x) + Reversed(digits) == Numeral(Number(input))
      decreases x
    {
      DigitTaken(x, digits);
      digits := digits + [Digit(x % BASE)];
      x := x / BASE;
    }
    var result := new char[|digits|](i requires 0 <= i < |digits| => digits[i]);
    assert result[..] == digits;
    ReverseBytes(result);
    text := result[..];
    assert Numeral(0) + Reversed(digits) == Reversed(digits) by { NothingLeft(); }
    var b := 0;
    while b < |input|
      invariant b <= |input| && b <= 1
      invariant text == (if b == 0 then [] else ['1']) + Numeral(Number(input))
    {
      if b == 0 {
        text := ['1'] + text;
      } else {
        break;
      }
      b := b + 1;
    }
  }

  method Base58Decode(input: string) returns (decoded: seq<byte>)
    ensures decoded == Decoded(input)
  {
    hide IndexOf, BigEndian;
    var result: int := 0;
    var zeroBytes := 0;
    for b := 0 to |input|
      invariant zeroBytes == if b == 0 then 0 else 1
    {
      if b == 0 {
        zeroBytes := zeroBytes + 1;
      }
    }
    var payload := input[zeroBytes..];
    for k := 0 to |payload|
      invariant result == Value(payload[..k])
    {
      assert payload[..k + 1][..k] == payload[..k];
      result := result * BASE + IndexOf(payload[k]);
    }
    assert payload[..|payload|] == payload;
    decoded := BigEndian(Magnitude(result));
    decoded := seq(zeroBytes, i => 0) + decoded;
  }

  // ---------------------------------------------------------------- round trips

  lemma {:induction false} ValueOfNumeral(n: nat)
    ensures Value(Numeral(n)) == n
  {
    hide Digit, IndexOf;
    if n != 0 {
      ValueOfNumeral(n / BASE);
      assert Numeral(n)[..|Numeral(n)| - 1] == Numeral(n / BASE);
      DigitIndex(n % BASE);
    }
  }

  lemma DigitIndex(d: nat)
    requires d < BASE
    ensures IndexOf(Digit(d)) == d
  {
  }

  predicate Plain(s: string) {
    forall k :: 0 <= k < |s| ==> IndexOf(s[k]) >= 0
  }

  lemma {:induction false} PlainValue(s: string)
    requires Plain(s)
    ensures Value(s) >= 0
    ensures s != [] && s[0] != '1' ==> Value(s) > 0
  {
    if s != [] {
      PlainValue(s[..|s| - 1]);
    }
  }

  lemma {:induction false} NumeralOfValue(s: string)
    requires Plain(s) && (s == [] || s[0] != '1')
    ensures Value(s) >= 0 && Numeral(Value(s)) == s
  {
    PlainValue(s);
    if s != [] {
      hide Digit;
      var front, last := s[..|s| - 1], IndexOf(s[|s| - 1]);
      NumeralOfValue(front);
      assert Value(s) / BASE == Value(front) && Value(s) % BASE == last;
      assert s == front + [Digit(last)];
    }
  }

  function Stripped(x: seq<byte>): (r: seq<byte>)
    ensures r == [] || r[0] != 0
  {
    if x != [] && x[0] == 0 then Stripped(x[1..]) else x
  }

  lemma {:induction false} NumberWithZero(x: seq<byte>)
    ensures Number([0] + x) == Number(x)
  {
    if x != [] {
      NumberWithZero(x[..|x| - 1]);
      assert ([0] + x)[..|x|] == [0] + x[..|x| - 1];
    } else {
      assert ([0] + x)[..0] == [];
    }
  }

  lemma {:induction false} NumberStripped(x: seq<byte>)
    ensures Number(Stripped(x)) == Number(x)
  {
    if x != [] && x[0] == 0 {
      NumberStripped(x[1..]);
      NumberWithZero(x[1..]);
      assert x == [0] + x[1..];
    }
  }

  /** Decoding what was encoded gives one zero byte and the input without its leading zeros. */
  lemma RoundTrip(x: seq<byte>)
    ensures Decoded(Encoded(x)) == if x == [] then [] else [0] + Stripped(x)
  {
    hide Number, Stripped, Numeral, BigEndian;
    if x == [] {
      assert Number(x) == 0 && Encoded(x) == [] by { EmptyEncoded(); }
    } else {
      var n := Number(x);
      assert Encoded(x)[1..] == Numeral(n);
      ValueOfNumeral(n);
      NumberStripped(x);
      BigEndianOfNumber(Stripped(x));
    }
  }

  lemma EmptyEncoded()
    ensures Number([]) == 0 && Encoded([]) == [] && Decoded([]) == []
  {
  }

  /** The round trip is exact for inputs with exactly one leading zero byte, and for no other non-empty ones. */
  lemma RoundTripIsExact(x: seq<byte>)
    ensures Decoded(Encoded(x)) == x <==> x == [] || (x[0] == 0 && (|x| == 1 || x[1] != 0))
  {
    RoundTrip(x);
    if x != [] {
      var tail := x[1..];
      assert x == [x[0]] + tail;
      assert ([0] + Stripped(x))[1..] == Stripped(x);
      StrippedIsTail(x);
    }
  }

  lemma {:induction false} StrippedLength(x: seq<byte>)
    ensures |Stripped(x)| <= |x|
    ensures Stripped(x) == x <==> x == [] || x[0] != 0
  {
    if x != [] && x[0] == 0 {
      StrippedLength(x[1..]);
    }
  }

  lemma StrippedIsTail(x: seq<byte>)
    requires x != []
    ensures Stripped(x) == x[1..] <==> x[0] == 0 && (|x| == 1 || x[1] != 0)
  {
    StrippedLength(x[1..]);
    if x[0] != 0 {
      assert |Stripped(x)| == |x|;
    }
  }

  lemma {:induction false} NumeralIsPlain(v: nat)
    ensures Plain(Numeral(v)) && (Numeral(v) == [] || Numeral(v)[0] != '1')
  {
    hide Digit, IndexOf;
    if v != 0 {
      NumeralIsPlain(v / BASE);
      DigitIndex(v % BASE);
    }
  }

  /** Whatever non-empty text is decoded, encoding the result gives a `1` and the numeral of what the rest adds up to. */
  lemma EncodedDecoded(s: string)
    requires s != []
    ensures Encoded(Decoded(s)) == ['1'] + Numeral(Magnitude(Value(s[1..])))
  {
    hide Number, Numeral, BigEndian, Value, IndexOf;
    NumberWithZero(BigEndian(Magnitude(Value(s[1..]))));
    NumberOfBigEndian(Magnitude(Value(s[1..])));
  }

  /** Of all texts, encoding what was decoded gives back those of the alphabet that start with a single `1`, and the empty one. */
  lemma TextRoundTrip(s: string)
    ensures Encoded(Decoded(s)) == s <==> s == [] || (Plain(s) && s[0] == '1' && (|s| == 1 || s[1] != '1'))
  {
    hide Number, Numeral, BigEndian, Value, IndexOf, Decoded, Encoded;
    if s == [] {
      EmptyEncoded();
    } else {
      var tail := s[1..];
      var numeral := Numeral(Magnitude(Value(tail)));
      EncodedDecoded(s);
      NumeralIsPlain(Magnitude(Value(tail)));
      assert s == [s[0]] + tail;
      assert (['1'] + numeral)[1..] == numeral;
      if Encoded(Decoded(s)) == s {
        assert IndexOf('1') >= 0 by { DigitIndex(0); }
      } else if Plain(s) {
        assert Plain(tail) by { assert forall k :: 0 <= k < |tail| ==> tail[k] == s[k + 1]; }
        if tail == [] || tail[0] != '1' {
          NumeralOfValue(tail);
        }
      }
    }
  }

  /** Text that is not Base58 at all is not refused: it can decode to the same bytes as text that is, and does not come back. */
  lemma MalformedText()
    ensures !Plain("10") && Plain("12") && Decoded("10") == Decoded("12") && Encoded(Decoded("10")) == "12"
  {
    assert "10"[1..] == "0" && "12"[1..] == "2";
    assert Value("0") == -1 by { assert "0"[..0] == ""; }
    assert Value("2") == 1 by { assert "2"[..0] == ""; }
    assert IndexOf("10"[1]) == -1;
    TextRoundTrip("12");
  }
}
