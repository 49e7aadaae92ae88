/** UTF-8 as section 3 of RFC 3629 defines it.  A string here is a Go string: one char per byte. */
module Utf8 {

  const RUNE_ERROR: int := 0xFFFD

  datatype Rune = Rune(code: int, size: nat)

  predicate Scalar(code: int) {
    0 <= code < 0xD800 || 0xE000 <= code <= 0x10FFFF
  }

  function ByteOf(value: int): char
    requires 0 <= value < 0x100
  {
    value as char
  }

  // The digits of a code in base 64, most significant first.
  function Digit(code: int, place: nat): (d: nat)
    requires 0 <= code && place < 4
    ensures place < 3 ==> d < 0x40
  {
    match place
    case 0 => code % 0x40
    case 1 => code / 0x40 % 0x40
    case 2 => code / 0x1000 % 0x40
    case _ => code / 0x4_0000
  }

  function Encode(code: int): (bytes: string)
    requires Scalar(code)
    ensures 1 <= |bytes| <= 4
  {
    if code < 0x80 then [ByteOf(code)]
    else if code < 0x800 then [ByteOf(0xC0 + Digit(code, 1)), ByteOf(0x80 + Digit(code, 0))]
    else if code < 0x1_0000 then
      [ByteOf(0xE0 + Digit(code, 2)), ByteOf(0x80 + Digit(code, 1)), ByteOf(0x80 + Digit(code, 0))]
    else
      [ByteOf(0xF0 + Digit(code, 3)), ByteOf(0x80 + Digit(code, 2)),
       ByteOf(0x80 + Digit(code, 1)), ByteOf(0x80 + Digit(code, 0))]
  }

  predicate Tail(c: char) {
    0x80 <= c as int <= 0xBF
  }

  // Go's utf8.RuneStart.
  predicate RuneStart(c: char) {
    !Tail(c)
  }

  predicate Two(s: string) {
    |s| >= 2 && 0xC2 <= s[0] as int <= 0xDF && Tail(s[1])
  }

  predicate Three(s: string) {
    && |s| >= 3 && 0xE0 <= s[0] as int <= 0xEF && Tail(s[1]) && Tail(s[2])
    && (s[0] as int == 0xE0 ==> 0xA0 <= s[1] as int)
    && (s[0] as int == 0xED ==> s[1] as int <= 0x9F)
  }

  predicate Four(s: string) {
    && |s| >= 4 && 0xF0 <= s[0] as int <= 0xF4 && Tail(s[1]) && Tail(s[2]) && Tail(s[3])
    && (s[0] as int == 0xF0 ==> 0x90 <= s[1] as int)
    && (s[0] as int == 0xF4 ==> s[1] as int <= 0x8F)
  }

  // Go's utf8.DecodeRuneInString on a non-empty string.
  function Decode(s: string): (r: Rune)
    requires s != ""
    ensures 1 <= r.size <= |s|
  {
    if (s[0] as int) < 0x80 then Rune(s[0] as int, 1)
    else if Two(s) then Rune((s[0] as int - 0xC0) * 0x40 + (s[1] as int - 0x80), 2)
    else if Three(s) then
      Rune((s[0] as int - 0xE0) * 0x1000 + (s[1] as int - 0x80) * 0x40 + (s[2] as int - 0x80), 3)
    else if Four(s) then
      Rune((s[0] as int - 0xF0) * 0x4_0000 + (s[1] as int - 0x80) * 0x1000
           + (s[2] as int - 0x80) * 0x40 + (s[3] as int - 0x80), 4)
    else Rune(RUNE_ERROR, 1)
  }

  predicate Malformed(r: Rune) {
    r == Rune(RUNE_ERROR, 1)
  }

  // Go's utf8.ValidString.
  predicate ValidString(s: string) {
    s == "" || (!Malformed(Decode(s)) && ValidString(s[Decode(s).size..]))
  }

  function Runes(s: string): seq<int> {
    if s == "" then [] else [Decode(s).code] + Runes(s[Decode(s).size..])
  }

  function Encoded(codes: seq<int>): string
    requires forall code | code in codes :: Scalar(code)
  {
    if codes == [] then "" else Encode(codes[0]) + Encoded(codes[1..])
  }

  // ---------- decoding and encoding are inverse ----------

  lemma DigitsMakeCode(code: int)
    requires 0 <= code <= 0x10FFFF
    ensures Digit(code, 3) * 0x4_0000 + Digit(code, 2) * 0x1000 + Digit(code, 1) * 0x40 + Digit(code, 0) == code
  {
    var high := code / 0x40;
    var higher := high / 0x40;
    assert code / 0x1000 == higher && code / 0x4_0000 == higher / 0x40;
  }

  lemma CodeHasDigits(a: nat, b: nat, c: nat, d: nat)
    requires b < 0x40 && c < 0x40 && d < 0x40
    ensures var code := a * 0x4_0000 + b * 0x1000 + c * 0x40 + d;
            Digit(code, 3) == a && Digit(code, 2) == b && Digit(code, 1) == c && Digit(code, 0) == d
  {
    var code := a * 0x4_0000 + b * 0x1000 + c * 0x40 + d;
    assert code / 0x40 == a * 0x1000 + b * 0x40 + c;
    assert code / 0x1000 == a * 0x40 + b;
  }

  lemma DecodeUndoesEncode(code: int, rest: string)
    requires Scalar(code)
    ensures Decode(Encode(code) + rest) == Rune(code, |Encode(code)|)
    ensures !Malformed(Decode(Encode(code) + rest))
  {
    DigitsMakeCode(code);
    var s := Encode(code) + rest;
    assert s[0] == Encode(code)[0];
    if code >= 0x80 {
      assert s[1] == Encode(code)[1];
    }
    if code >= 0x800 {
      assert s[2] == Encode(code)[2];
    }
    if code >= 0x1_0000 {
      assert s[3] == Encode(code)[3];
    }
  }

  lemma EncodeUndoesDecode(s: string)
    requires s != "" && !Malformed(Decode(s))
    ensures Scalar(Decode(s).code) && Encode(Decode(s).code) == s[..Decode(s).size]
  {
    if s[0] as int < 0x80 {
      assert s[..1] == [s[0]];
    } else if Two(s) {
      CodeHasDigits(0, 0, s[0] as int - 0xC0, s[1] as int - 0x80);
    } else if Three(s) {
      CodeHasDigits(0, s[0] as int - 0xE0, s[1] as int - 0x80, s[2] as int - 0x80);
    } else {
      CodeHasDigits(s[0] as int - 0xF0, s[1] as int - 0x80, s[2] as int - 0x80, s[3] as int - 0x80);
    }
  }

  // A string is valid exactly when it is the encoding of some scalar values.
  lemma {:induction false} ValidIffEncoded(s: string)
    ensures ValidString(s) <==>
            exists codes: seq<int> :: (forall code | code in codes :: Scalar(code)) && Encoded(codes) == s
  {
    if ValidString(s) {
      RunesEncode(s);
      assert Encoded(Runes(s)) == s;
    }
    forall codes: seq<int> | (forall code | code in codes :: Scalar(code)) && Encoded(codes) == s
      ensures ValidString(s)
    {
      EncodedIsValid(codes);
    }
  }

  lemma EncodedCons(code: int, codes: seq<int>)
    requires Scalar(code) && forall c | c in codes :: Scalar(c)
    ensures Encoded([code] + codes) == Encode(code) + Encoded(codes)
  {
    assert ([code] + codes)[1..] == codes;
  }

  lemma {:induction false} RunesEncode(s: string)
    requires ValidString(s)
    ensures (forall code | code in Runes(s) :: Scalar(code)) && Encoded(Runes(s)) == s
  {
    if s != "" {
      var r := Decode(s);
      EncodeUndoesDecode(s);
      RunesEncode(s[r.size..]);
      EncodedCons(r.code, Runes(s[r.size..]));
      assert s == s[..r.size] + s[r.size..];
    }
  }

  lemma {:induction false} EncodedIsValid(codes: seq<int>)
    requires forall code | code in codes :: Scalar(code)
    ensures ValidString(Encoded(codes)) && Runes(Encoded(codes)) == codes
  {
    if codes != [] {
      EncodedIsValid(codes[1..]);
      DecodeUndoesEncode(codes[0], Encoded(codes[1..]));
      assert Encoded(codes)[|Encode(codes[0])|..] == Encoded(codes[1..]);
    }
  }

  // ---------- rune boundaries ----------

  // A well-formed sequence reads the same whatever follows it.
  lemma DecodeIgnoresRest(s: string, rest: string)
    requires s != "" && !Malformed(Decode(s))
    ensures Decode(s + rest) == Decode(s)
  {
    assert forall i | 0 <= i < |s| :: (s + rest)[i] == s[i];
  }

  lemma {:induction false} ValidAppend(s: string, t: string)
    requires ValidString(s)
    ensures ValidString(s + t) <==> ValidString(t)
    ensures Runes(s + t) == Runes(s) + Runes(t)
  {
    if s == "" {
      assert s + t == t;
    } else {
      DecodeIgnoresRest(s, t);
      var n := Decode(s).size;
      assert (s + t)[n..] == s[n..] + t;
      ValidAppend(s[n..], t);
    }
  }

  // Inside a well-formed sequence every byte is a tail byte, and no shorter prefix of it is well formed.
  lemma InsideRune(s: string, p: nat)
    requires s != "" && !Malformed(Decode(s)) && 0 < p < Decode(s).size
    ensures Tail(s[p]) && Malformed(Decode(s[..p]))
  {
  }

  lemma DecodeOfPrefix(s: string, p: nat)
    requires s != "" && !Malformed(Decode(s)) && Decode(s).size <= p <= |s|
    ensures Decode(s[..p]) == Decode(s)
  {
    assert forall i | 0 <= i < p :: s[..p][i] == s[i];
  }

  lemma {:induction false} PrefixPeels(s: string, p: nat)
    requires s != "" && ValidString(s) && Decode(s).size <= p <= |s|
    ensures var n := Decode(s).size;
            && (ValidString(s[..p]) <==> ValidString(s[n..][..p - n]))
            && Runes(s[..p]) == [Decode(s).code] + Runes(s[n..][..p - n])
  {
    DecodeOfPrefix(s, p);
    assert s[..p][Decode(s).size..] == s[Decode(s).size..][..p - Decode(s).size];
  }

  // In a valid string the rune boundaries are exactly the bytes that are not tail bytes.
  lemma {:induction false} BoundaryIff(s: string, p: nat)
    requires ValidString(s) && p <= |s|
    ensures ValidString(s[..p]) <==> (p == |s| || RuneStart(s[p]))
    ensures ValidString(s[..p]) ==> ValidString(s[p..]) && Runes(s) == Runes(s[..p]) + Runes(s[p..])
  {
    if p == |s| {
      assert s[..p] == s;
    } else if p == 0 {
      assert s[p..] == s;
    } else if p < Decode(s).size {
      InsideRune(s, p);
    } else {
      var n := Decode(s).size;
      BoundaryIff(s[n..], p - n);
      PrefixPeels(s, p);
      assert s[n..][p - n..] == s[p..] && s[n..][p - n] == s[p];
    }
  }

  // ---------- truncation ----------

  // validator.go's truncateUTF8: the longest prefix within maxBytes that ends on a rune boundary.
  method TruncateUtf8(s: string, maxBytes: nat) returns (r: string)
    ensures r == Truncated(s, maxBytes)
  {
    if |s| <= maxBytes {
      return s;
    }
    var cut: nat := maxBytes;
    while cut > 0 && !RuneStart(s[cut])
      invariant 0 <= cut <= maxBytes < |s| && CutAt(s, cut) == CutAt(s, maxBytes)
    {
      cut := cut - 1;
    }
    r := s[..cut];
  }

  // The last boundary at or before `cut`.
  function CutAt(s: string, cut: nat): (k: nat)
    requires cut < |s|
    ensures k <= cut && (k == 0 || RuneStart(s[k]))
    ensures forall j | k < j <= cut :: Tail(s[j])
  {
    if cut == 0 || RuneStart(s[cut]) then cut else CutAt(s, cut - 1)
  }

  function Truncated(s: string, maxBytes: nat): string {
    if |s| <= maxBytes then s else s[..CutAt(s, maxBytes)]
  }

  // Truncating a valid string gives its longest valid prefix within the limit.
  lemma {:induction false} TruncatedIsLongestValidPrefix(s: string, maxBytes: nat)
    requires ValidString(s)
    ensures Truncated(s, maxBytes) <= s && |Truncated(s, maxBytes)| <= maxBytes && ValidString(Truncated(s, maxBytes))
    ensures forall k: nat | k <= maxBytes && k <= |s| && ValidString(s[..k]) :: k <= |Truncated(s, maxBytes)|
  {
    if maxBytes < |s| {
      BoundaryIff(s, CutAt(s, maxBytes));
      forall k: nat | k <= maxBytes && ValidString(s[..k]) ensures k <= CutAt(s, maxBytes) {
        BoundaryIff(s, k);
      }
    }
  }
}
