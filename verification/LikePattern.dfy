/**
 Escaping user text for LIKE, and what the escaped pattern matches.  Escaping works
 on the bytes of a Go string; Postgres matches the code points that they encode.
 */
module LikePattern {
  import opened Utf8

  type Codes = seq<int>

  // Every occurrence of one character replaced by a string, left to right.
  function ReplaceAll(s: string, c: char, replacement: string): string {
    if s == "" then "" else (if s[0] == c then replacement else [s[0]]) + ReplaceAll(s[1..], c, replacement)
  }

  // The three whole-string replacements, backslash first.
  function EscapeLike(s: string): string {
    ReplaceAll(ReplaceAll(ReplaceAll(s, '\\', "\\\\"), '%', "\\%"), '_', "\\_")
  }

  predicate Special(c: char) {
    c == '\\' || c == '%' || c == '_'
  }

  // Each special character gets one backslash in front; nothing else changes.
  function Escaped(s: string): string {
    if s == "" then "" else (if Special(s[0]) then ['\\', s[0]] else [s[0]]) + Escaped(s[1..])
  }

  lemma {:induction false} ReplaceAllConcat(a: string, b: string, c: char, replacement: string)
    ensures ReplaceAll(a + b, c, replacement) == ReplaceAll(a, c, replacement) + ReplaceAll(b, c, replacement)
  {
    if a == "" {
      assert a + b == b;
    } else {
      assert (a + b)[1..] == a[1..] + b;
      ReplaceAllConcat(a[1..], b, c, replacement);
    }
  }

  lemma {:induction false} EscapeIsOnePass(s: string)
    ensures EscapeLike(s) == Escaped(s)
  {
    if s != "" {
      var head, tail := [s[0]], s[1..];
      assert s == head + tail;
      ReplaceAllConcat(head, tail, '\\', "\\\\");
      var h1, t1 := ReplaceAll(head, '\\', "\\\\"), ReplaceAll(tail, '\\', "\\\\");
      ReplaceAllConcat(h1, t1, '%', "\\%");
      var h2, t2 := ReplaceAll(h1, '%', "\\%"), ReplaceAll(t1, '%', "\\%");
      ReplaceAllConcat(h2, t2, '_', "\\_");
      EscapeIsOnePass(tail);
      SingleCharacter(s[0]);
    }
  }

  lemma SingleCharacter(c: char)
    ensures EscapeLike([c]) == if Special(c) then ['\\', c] else [c]
  {
    assert [c][1..] == "";
    if c == '\\' {
      assert "\\\\"[1..] == "\\" && "\\"[1..] == "";
      assert ReplaceAll([c], '\\', "\\\\") == "\\\\";
      assert ReplaceAll("\\\\", '%', "\\%") == "\\\\";
      assert ReplaceAll("\\\\", '_', "\\_") == "\\\\";
    } else if c == '%' {
      assert "\\%"[1..] == "%" && "%"[1..] == "";
      assert ReplaceAll([c], '\\', "\\\\") == "%";
      assert ReplaceAll("%", '%', "\\%") == "\\%";
      assert ReplaceAll("\\%", '_', "\\_") == "\\%";
    }
  }

  // ---------- code points ----------

  const BACKSLASH := 0x5C
  const PERCENT := 0x25
  const UNDERSCORE := 0x5F

  predicate SpecialCode(code: int) {
    code == BACKSLASH || code == PERCENT || code == UNDERSCORE
  }

  function EscapedCodes(s: Codes): Codes {
    if s == [] then [] else (if SpecialCode(s[0]) then [BACKSLASH, s[0]] else [s[0]]) + EscapedCodes(s[1..])
  }

  // A byte below 0x80 is a rune of its own, whatever stands before it.
  lemma DecodeBeforeAscii(a: string, c: char, b: string)
    requires a != "" && (c as int) < 0x80
    ensures Decode(a + [c] + b) == Decode(a)
  {
    var s := a + [c] + b;
    assert s[|a|] == c && forall i | 0 <= i < |a| :: s[i] == a[i];
  }

  lemma {:induction false} AsciiSplits(a: string, c: char, b: string)
    requires (c as int) < 0x80
    ensures Runes(a + [c] + b) == Runes(a) + [c as int] + Runes(b)
  {
    var s := a + [c] + b;
    if a == "" {
      assert s[0] == c && s[1..] == b;
    } else {
      DecodeBeforeAscii(a, c, b);
      var n := Decode(a).size;
      assert s[n..] == a[n..] + [c] + b;
      AsciiSplits(a[n..], c, b);
    }
  }

  lemma {:induction false} AsciiRunesAreBytes(a: string, code: int)
    requires code in Runes(a) && code < 0x80
    ensures exists i | 0 <= i < |a| :: a[i] as int == code
  {
    var n := Decode(a).size;
    if Decode(a).code == code {
      assert a[0] as int == code;
    } else {
      AsciiRunesAreBytes(a[n..], code);
      var i :| 0 <= i < |a| - n && a[n..][i] as int == code;
      assert a[n + i] as int == code;
    }
  }

  predicate Plain(s: string) {
    forall i | 0 <= i < |s| :: !Special(s[i])
  }

  lemma {:induction false} PlainEscapes(a: string, b: string)
    requires Plain(a)
    ensures Escaped(a + b) == a + Escaped(b)
  {
    if a == "" {
      assert a + b == b;
    } else {
      assert (a + b)[1..] == a[1..] + b;
      PlainEscapes(a[1..], b);
    }
  }

  lemma {:induction false} PlainCodes(codes: Codes, more: Codes)
    requires forall code | code in codes :: !SpecialCode(code)
    ensures EscapedCodes(codes + more) == codes + EscapedCodes(more)
  {
    if codes == [] {
      assert codes + more == more;
    } else {
      assert (codes + more)[1..] == codes[1..] + more;
      PlainCodes(codes[1..], more);
    }
  }

  lemma {:induction false} PlainRunes(a: string)
    requires Plain(a)
    ensures forall code | code in Runes(a) :: !SpecialCode(code)
  {
    forall code | code in Runes(a) ensures !SpecialCode(code) {
      if code < 0x80 {
        AsciiRunesAreBytes(a, code);
      }
    }
  }

  // Escaping the bytes escapes the code points, of valid and invalid text alike.
  lemma {:induction false} RunesOfEscaped(s: string)
    ensures Runes(Escaped(s)) == EscapedCodes(Runes(s))
    decreases |s|
  {
    var i := FirstSpecial(s);
    var a := s[..i];
    PlainRunes(a);
    if i == |s| {
      assert a == s && s + "" == s;
      PlainEscapes(s, "");
      PlainCodes(Runes(s), []);
      assert Runes(s) + [] == Runes(s);
    } else {
      var c, b := s[i], s[i + 1..];
      assert s == a + [c] + b;
      EscapedSplit(a, c, b);
      RunesAtSpecial(a, c, Escaped(b));
      AsciiSplits(a, c, b);
      RunesOfEscaped(b);
      CodesOfSplit(Runes(a), c as int, Runes(b));
    }
  }

  lemma EscapedSplit(a: string, c: char, b: string)
    requires Plain(a) && Special(c)
    ensures Escaped(a + [c] + b) == a + ['\\'] + ([c] + Escaped(b))
  {
    assert a + [c] + b == a + ([c] + b) && ([c] + b)[1..] == b;
    PlainEscapes(a, [c] + b);
  }

  lemma RunesAtSpecial(a: string, c: char, b: string)
    requires Special(c)
    ensures Runes(a + ['\\'] + ([c] + b)) == Runes(a) + [BACKSLASH] + ([c as int] + Runes(b))
  {
    AsciiSplits(a, '\\', [c] + b);
    AsciiSplits("", c, b);
    assert "" + [c] + b == [c] + b;
  }

  lemma CodesOfSplit(a: Codes, code: int, b: Codes)
    requires SpecialCode(code) && forall c | c in a :: !SpecialCode(c)
    ensures EscapedCodes(a + [code] + b) == a + [BACKSLASH] + ([code] + EscapedCodes(b))
  {
    PlainCodes(a, [code] + b);
    assert a + [code] + b == a + ([code] + b) && ([code] + b)[1..] == b;
  }

  function FirstSpecial(s: string): (i: nat)
    ensures i <= |s| && Plain(s[..i]) && (i < |s| ==> Special(s[i]))
  {
    if s == "" || Special(s[0]) then 0
    else
      var i := FirstSpecial(s[1..]);
      assert forall k | 0 < k < i + 1 :: s[k] == s[1..][..i][k - 1];
      1 + i
  }

  // SQL LIKE with ESCAPE '\'.  A pattern that ends in the escape character matches nothing.
  predicate Matches(text: Codes, pattern: Codes)
    decreases |pattern|, |text|
  {
    if pattern == [] then text == []
    else if pattern[0] == PERCENT then
      Matches(text, pattern[1..]) || (text != [] && Matches(text[1..], pattern))
    else if pattern[0] == BACKSLASH then
      |pattern| > 1 && text != [] && text[0] == pattern[1] && Matches(text[1..], pattern[2..])
    else
      text != [] && (pattern[0] == UNDERSCORE || text[0] == pattern[0]) && Matches(text[1..], pattern[1..])
  }

  lemma {:induction false} EscapedIsLiteral(text: Codes, s: Codes, rest: Codes)
    ensures Matches(text, EscapedCodes(s) + rest) <==> s <= text && Matches(text[|s|..], rest)
    decreases |s|
  {
    if s == [] {
      assert EscapedCodes(s) + rest == rest && text[0..] == text;
    } else {
      var step := if SpecialCode(s[0]) then 2 else 1;
      var pattern := EscapedCodes(s) + rest;
      assert pattern[step..] == EscapedCodes(s[1..]) + rest;
      if text != [] {
        EscapedIsLiteral(text[1..], s[1..], rest);
        if s[0] == text[0] {
          assert s <= text <==> s[1..] <= text[1..];
          if s <= text {
            assert text[|s|..] == text[1..][|s[1..]|..];
          }
        }
      }
    }
  }

  lemma {:induction false} WildcardMatchesAll(text: Codes)
    ensures Matches(text, [PERCENT])
    decreases |text|
  {
    if text != [] {
      WildcardMatchesAll(text[1..]);
    } else {
      assert [PERCENT][1..] == [];
    }
  }

  predicate OccursAt(s: Codes, text: Codes, i: nat) {
    i + |s| <= |text| && text[i..i + |s|] == s
  }

  predicate Substring(s: Codes, text: Codes) {
    exists i: nat | i <= |text| :: OccursAt(s, text, i)
  }

  lemma PrefixPattern(text: Codes, s: Codes)
    ensures Matches(text, EscapedCodes(s) + [PERCENT]) <==> s <= text
  {
    EscapedIsLiteral(text, s, [PERCENT]);
    if s <= text {
      WildcardMatchesAll(text[|s|..]);
    }
  }

  lemma {:induction false} SubstringPattern(text: Codes, s: Codes)
    ensures Matches(text, [PERCENT] + EscapedCodes(s) + [PERCENT]) <==> Substring(s, text)
    decreases |text|
  {
    var tail := EscapedCodes(s) + [PERCENT];
    var pattern := [PERCENT] + EscapedCodes(s) + [PERCENT];
    assert pattern == [PERCENT] + tail && pattern[1..] == tail;
    PrefixPattern(text, s);
    assert s <= text <==> OccursAt(s, text, 0);
    if text != [] {
      SubstringPattern(text[1..], s);
      if Substring(s, text[1..]) {
        var i: nat :| i <= |text[1..]| && OccursAt(s, text[1..], i);
        assert text[1..][i..i + |s|] == text[i + 1..i + 1 + |s|];
        assert OccursAt(s, text, i + 1);
      }
      if Substring(s, text) && !(s <= text) {
        var i: nat :| i <= |text| && OccursAt(s, text, i);
        assert i > 0;
        assert text[1..][i - 1..i - 1 + |s|] == text[i..i + |s|];
        assert OccursAt(s, text[1..], i - 1);
      }
    }
  }

  // ILIKE folds both sides one code point at a time.  A case folding never
  // turns a letter into, or moves, one of the three special characters.
  ghost predicate CaseFolding(fold: int -> int) {
    forall c :: (SpecialCode(c) ==> fold(c) == c) && (SpecialCode(fold(c)) ==> fold(c) == c)
  }

  function FoldCodes(fold: int -> int, codes: Codes): (t: Codes)
    ensures |t| == |codes|
  {
    seq(|codes|, i requires 0 <= i < |codes| => fold(codes[i]))
  }

  // The folded code points of a Go string.
  function Fold(fold: int -> int, s: string): Codes {
    FoldCodes(fold, Runes(s))
  }

  predicate ILike(fold: int -> int, text: string, pattern: string) {
    Matches(Fold(fold, text), Fold(fold, pattern))
  }

  lemma FoldConcat(fold: int -> int, a: Codes, b: Codes)
    ensures FoldCodes(fold, a + b) == FoldCodes(fold, a) + FoldCodes(fold, b)
  {
  }

  lemma {:induction false} FoldEscaped(fold: int -> int, s: Codes)
    requires CaseFolding(fold)
    ensures FoldCodes(fold, EscapedCodes(s)) == EscapedCodes(FoldCodes(fold, s))
  {
    if s != [] {
      var head := if SpecialCode(s[0]) then [BACKSLASH, s[0]] else [s[0]];
      FoldConcat(fold, head, EscapedCodes(s[1..]));
      FoldEscaped(fold, s[1..]);
      assert FoldCodes(fold, s)[1..] == FoldCodes(fold, s[1..]);
      assert FoldCodes(fold, head) == if SpecialCode(fold(s[0])) then [BACKSLASH, fold(s[0])] else [fold(s[0])];
    }
  }

  // What the pattern built from escapeLike's bytes is, in folded code points.
  lemma FoldedPattern(fold: int -> int, s: string)
    requires CaseFolding(fold)
    ensures Fold(fold, EscapeLike(s) + "%") == EscapedCodes(Fold(fold, s)) + [PERCENT]
    ensures Fold(fold, "%" + EscapeLike(s) + "%") == [PERCENT] + EscapedCodes(Fold(fold, s)) + [PERCENT]
  {
    var e := Escaped(s);
    EscapeIsOnePass(s);
    RunesOfEscaped(s);
    FoldEscaped(fold, Runes(s));
    AsciiSplits(e, '%', "");
    assert e + ['%'] + "" == e + "%";
    AsciiSplits("", '%', e + "%");
    assert "" + ['%'] + (e + "%") == "%" + e + "%";
    var codes := EscapedCodes(Runes(s));
    assert Runes(e + "%") == codes + [PERCENT] && Runes("%" + e + "%") == [PERCENT] + (codes + [PERCENT]);
    FoldConcat(fold, codes, [PERCENT]);
    FoldConcat(fold, [PERCENT], codes + [PERCENT]);
    assert FoldCodes(fold, [PERCENT]) == [PERCENT];
  }

  // The pattern of `startsWith`, as the emitted SQL concatenates it.
  lemma StartsWithMeansPrefix(fold: int -> int, text: string, s: string)
    requires CaseFolding(fold)
    ensures ILike(fold, text, EscapeLike(s) + "%") <==> Fold(fold, s) <= Fold(fold, text)
  {
    FoldedPattern(fold, s);
    PrefixPattern(Fold(fold, text), Fold(fold, s));
  }

  // The pattern of `contains`.
  lemma ContainsMeansSubstring(fold: int -> int, text: string, s: string)
    requires CaseFolding(fold)
    ensures ILike(fold, text, "%" + EscapeLike(s) + "%") <==> Substring(Fold(fold, s), Fold(fold, text))
  {
    FoldedPattern(fold, s);
    SubstringPattern(Fold(fold, text), Fold(fold, s));
  }
}
