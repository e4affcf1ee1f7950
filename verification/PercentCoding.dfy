/** Percent-encoding of byte strings, and the decoder that undoes it. */
module PercentCoding {
  import opened Wrappers
  import opened Bytes

  /** The bytes of an ASCII text. */
  function Ascii(text: string): (r: seq<Byte>)
    requires forall i | 0 <= i < |text| :: text[i] < 128 as char
    ensures |r| == |text| && forall i | 0 <= i < |r| :: r[i] == text[i] as int
  {
    seq(|text|, i requires 0 <= i < |text| => text[i] as int)
  }

  const PERCENT: Byte := 37
  const SLASH: Byte := 47
  const BACKSLASH: Byte := 92
  const AT: Byte := 64
  const DOT: Byte := 46
  const DASH: Byte := 45
  const UNDERSCORE: Byte := 95
  const COLON: Byte := 58
  const TILDE: Byte := 126

  predicate IsDigitByte(b: Byte) { 48 <= b <= 57 }

  predicate IsUpper(b: Byte) { 65 <= b <= 90 }

  predicate IsLower(b: Byte) { 97 <= b <= 122 }

  predicate IsAlphanumeric(b: Byte) {
    IsDigitByte(b) || IsUpper(b) || IsLower(b)
  }

  /** An upper-case hexadecimal digit. */
  function HexDigit(n: nat): Byte
    requires n < 16
  {
    if n < 10 then 48 + n else 55 + n
  }

  /** The value of a hexadecimal digit of either case. */
  function HexValue(b: Byte): (r: Option<nat>)
    ensures r.Some? ==> r.value < 16
  {
    if IsDigitByte(b) then Some(b - 48)
    else if 97 <= b <= 102 then Some(b - 87)
    else if 65 <= b <= 70 then Some(b - 55)
    else None
  }

  lemma HexRoundTrip(n: nat)
    requires n < 16
    ensures HexValue(HexDigit(n)) == Some(n)
  {
  }

  function EncodeByte(b: Byte, keep: Byte -> bool): seq<Byte> {
    if keep(b) then [b] else [PERCENT, HexDigit(b / 16), HexDigit(b % 16)]
  }

  function Encode(s: seq<Byte>, keep: Byte -> bool): seq<Byte> {
    if s == [] then [] else Encode(s[..|s| - 1], keep) + EncodeByte(s[|s| - 1], keep)
  }

  /** An escape at the front: its byte. */
  function Escape(s: seq<Byte>): (r: Option<Byte>)
    ensures r.Some? ==> |s| >= 3
  {
    if |s| < 3 || s[0] != PERCENT then None
    else
      var high :- HexValue(s[1]);
      var low :- HexValue(s[2]);
      Some(16 * high + low)
  }

  /** Escapes become their bytes; a `%` without two hexadecimal digits stands for itself. */
  function Decode(s: seq<Byte>): seq<Byte> {
    if s == [] then []
    else if Escape(s).Some? then [Escape(s).value] + Decode(s[3..])
    else [s[0]] + Decode(s[1..])
  }

  lemma EscapeReads(b: Byte, rest: seq<Byte>)
    ensures Escape([PERCENT, HexDigit(b / 16), HexDigit(b % 16)] + rest) == Some(b)
    ensures ([PERCENT, HexDigit(b / 16), HexDigit(b % 16)] + rest)[3..] == rest
  {
    HexRoundTrip(b / 16);
    HexRoundTrip(b % 16);
  }

  lemma DecodeOne(b: Byte, keep: Byte -> bool, rest: seq<Byte>)
    requires !keep(PERCENT)
    ensures Decode(EncodeByte(b, keep) + rest) == [b] + Decode(rest)
  {
    if keep(b) {
      assert ([b] + rest)[1..] == rest;
    } else {
      EscapeReads(b, rest);
    }
  }

  lemma {:induction false} DecodeFront(s: seq<Byte>, keep: Byte -> bool, rest: seq<Byte>)
    requires !keep(PERCENT)
    ensures Decode(Encode(s, keep) + rest) == s + Decode(rest)
  {
    if s == [] {
      assert [] + rest == rest;
    } else {
      var front, last := s[..|s| - 1], s[|s| - 1];
      var more := EncodeByte(last, keep) + rest;
      Associate(Encode(front, keep), EncodeByte(last, keep), rest);
      DecodeFront(front, keep, more);
      DecodeOne(last, keep, rest);
      assert s == front + [last];
      Associate(front, [last], Decode(rest));
    }
  }

  lemma Associate(a: seq<Byte>, b: seq<Byte>, c: seq<Byte>)
    ensures (a + b) + c == a + (b + c)
  {
  }

  /** Decoding undoes encoding, for all bytes and every set of kept bytes without the percent sign. */
  lemma DecodeUndoesEncode(s: seq<Byte>, keep: Byte -> bool)
    requires !keep(PERCENT)
    ensures Decode(Encode(s, keep)) == s
  {
    DecodeFront(s, keep, []);
    assert Encode(s, keep) + [] == Encode(s, keep);
    assert s + Decode([]) == s;
  }

  lemma EncodeInjective(s: seq<Byte>, t: seq<Byte>, keep: Byte -> bool)
    requires !keep(PERCENT) && Encode(s, keep) == Encode(t, keep)
    ensures s == t
  {
    DecodeUndoesEncode(s, keep);
    DecodeUndoesEncode(t, keep);
  }

  /** Encoded text holds only kept bytes, the percent sign and upper-case hexadecimal digits, and is empty
    * only for the empty text. */
  lemma {:induction false} EncodedAlphabet(s: seq<Byte>, keep: Byte -> bool)
    ensures forall b | b in Encode(s, keep) :: keep(b) || b == PERCENT || IsDigitByte(b) || 65 <= b <= 70
    ensures |Encode(s, keep)| >= |s|
  {
    if s != [] {
      EncodedAlphabet(s[..|s| - 1], keep);
    }
  }

  /** Text of kept bytes only is left as it is, and no other text is. */
  lemma {:induction false} EncodeLeavesKept(s: seq<Byte>, keep: Byte -> bool)
    ensures Encode(s, keep) == s <==> forall b | b in s :: keep(b)
  {
    if s != [] {
      var front, last := s[..|s| - 1], s[|s| - 1];
      assert s == front + [last];
      EncodeLeavesKept(front, keep);
      EncodedAlphabet(front, keep);
      assert !keep(last) ==> |Encode(s, keep)| > |s|;
      if Encode(s, keep) == s && keep(last) {
        assert Encode(s, keep)[..|front|] == front;
      }
    }
  }

  /** What the storage encoder keeps. */
  function StorageSafe(): Byte -> bool {
    (b: Byte) => IsAlphanumeric(b) || b == DOT || b == DASH || b == UNDERSCORE || b == AT || b == COLON
  }

  /** The unreserved characters of section 2.3 of RFC 3986, which package URLs keep. */
  function Unreserved(): Byte -> bool {
    (b: Byte) => IsAlphanumeric(b) || b == DASH || b == DOT || b == UNDERSCORE || b == TILDE
  }

  method EncodeSegment(input: seq<Byte>, keep: Byte -> bool) returns (output: seq<Byte>)
    ensures output == Encode(input, keep)
  {
    output := [];
    for i := 0 to |input|
      invariant output == Encode(input[..i], keep)
    {
      assert input[..i + 1][..i] == input[..i];
      var b := input[i];
      if keep(b) {
        output := output + [b];
      } else {
        output := output + [PERCENT, HexDigit(b / 16), HexDigit(b % 16)];
      }
    }
    assert input[..|input|] == input;
  }

  /** One turn of the decoder, at any place. */
  lemma DecodeStep(segment: seq<Byte>, index: nat)
    requires index < |segment|
    ensures if segment[index] == PERCENT && index + 2 < |segment|
                && HexValue(segment[index + 1]).Some? && HexValue(segment[index + 2]).Some?
            then Decode(segment[index..])
                 == [16 * HexValue(segment[index + 1]).value + HexValue(segment[index + 2]).value]
                   + Decode(segment[index + 3..])
            else Decode(segment[index..]) == [segment[index]] + Decode(segment[index + 1..])
  {
    var rest := segment[index..];
    assert |rest| >= 3 ==> rest[3..] == segment[index + 3..];
    assert rest[1..] == segment[index + 1..];
  }

  method DecodeSegment(segment: seq<Byte>) returns (decoded: seq<Byte>)
    ensures decoded == Decode(segment)
  {
    decoded := [];
    var index := 0;
    while index < |segment|
      invariant index <= |segment|
      invariant decoded + Decode(segment[index..]) == Decode(segment)
    {
      DecodeStep(segment, index);
      if segment[index] == PERCENT && index + 2 < |segment|
        && HexValue(segment[index + 1]).Some? && HexValue(segment[index + 2]).Some?
      {
        var b := 16 * HexValue(segment[index + 1]).value + HexValue(segment[index + 2]).value;
        Associate(decoded, [b], Decode(segment[index + 3..]));
        decoded := decoded + [b];
        index := index + 3;
        continue;
      }
      Associate(decoded, [segment[index]], Decode(segment[index + 1..]));
      decoded := decoded + [segment[index]];
      index := index + 1;
    }
    assert segment[|segment|..] == [];
  }
}
