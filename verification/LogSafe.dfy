/** Making an untrusted value safe for one line of the audit log. */
module LogSafe {
  import opened Utf8

  const MAX_LOG_VALUE_LEN: nat := 256
  const LINE_SEP: int := 0x2028
  const PARA_SEP: int := 0x2029
  const REPLACEMENT: string := Encode(RUNE_ERROR)

  predicate Scrubbed(code: int) {
    code < 0x20 || code == 0x7F || code == LINE_SEP || code == PARA_SEP
  }

  // ---------- what the loop writes ----------

  function Piece(s: string): string
    requires s != ""
  {
    var r := Decode(s);
    if Scrubbed(r.code) || Malformed(r) then REPLACEMENT else s[..r.size]
  }

  function Pieces(s: string): seq<string> {
    if s == "" then [] else [Piece(s)] + Pieces(s[Decode(s).size..])
  }

  function Joined(pieces: seq<string>): string {
    if pieces == [] then "" else pieces[0] + Joined(pieces[1..])
  }

  // The pieces before the first one that does not fit.
  function Fitting(pieces: seq<string>, room: nat): seq<string> {
    if pieces == [] || |pieces[0]| > room then []
    else [pieces[0]] + Fitting(pieces[1..], room - |pieces[0]|)
  }

  function CleanWithin(s: string, room: nat): string {
    Joined(Fitting(Pieces(s), room))
  }

  function Clean(s: string): string {
    CleanWithin(s, MAX_LOG_VALUE_LEN)
  }

  method String(s: string) returns (r: string)
    ensures r == Clean(s)
  {
    if s == "" {
      return s;
    }
    var scrub := NeedsScrub(s);
    if |s| <= MAX_LOG_VALUE_LEN && !scrub && ValidString(s) {
      NeedsScrubIff(s);
      UnchangedIff(s);
      return s;
    }
    r := Scrub(s);
  }

  // The slow path.
  method Scrub(s: string) returns (b: string)
    ensures b == Clean(s)
  {
    b := "";
    var i, written := 0, 0;
    assert s[i..] == s;
    while i < |s|
      invariant 0 <= i <= |s| && written == |b| <= MAX_LOG_VALUE_LEN
      invariant Clean(s) == b + CleanWithin(s[i..], MAX_LOG_VALUE_LEN - written)
    {
      var size, enc := Written(s[i..]);
      WrittenOne(s, b, i, size, enc);
      if written + |enc| > MAX_LOG_VALUE_LEN {
        return;
      }
      b := b + enc;
      written := written + |enc|;
      i := i + size;
    }
  }

  lemma WrittenOne(s: string, b: string, i: nat, size: nat, enc: string)
    requires i < |s| && i + size <= |s| && |b| <= MAX_LOG_VALUE_LEN
    requires Unwinds(s[i..], size, enc, MAX_LOG_VALUE_LEN - |b|)
    requires Clean(s) == b + CleanWithin(s[i..], MAX_LOG_VALUE_LEN - |b|)
    ensures |b| + |enc| > MAX_LOG_VALUE_LEN ==> Clean(s) == b
    ensures |b| + |enc| <= MAX_LOG_VALUE_LEN ==>
              Clean(s) == (b + enc) + CleanWithin(s[i + size..], MAX_LOG_VALUE_LEN - |b| - |enc|)
  {
    assert s[i..][size..] == s[i + size..];
  }

  // The next rune and what the loop writes for it.
  method Written(rest: string) returns (size: nat, enc: string)
    requires rest != ""
    ensures 1 <= size <= |rest|
    ensures forall room: nat :: Unwinds(rest, size, enc, room)
  {
    var rune := Decode(rest);
    size := rune.size;
    if Scrubbed(rune.code) || Malformed(rune) {
      enc := REPLACEMENT;
    } else if rune.size == 1 {
      enc := [rest[0]];
    } else {
      EncodeUndoesDecode(rest);
      enc := Encode(rune.code);
    }
    forall room: nat ensures Unwinds(rest, size, enc, room) {
      WriteNext(rest, room);
    }
  }

  ghost predicate Unwinds(rest: string, size: nat, enc: string, room: nat)
    requires size <= |rest|
  {
    CleanWithin(rest, room) == if |enc| > room then "" else enc + CleanWithin(rest[size..], room - |enc|)
  }

  lemma WriteNext(rest: string, room: nat)
    requires rest != ""
    ensures Unwinds(rest, Decode(rest).size, Piece(rest), room)
  {
    if |Piece(rest)| <= room {
      FittingCons(Piece(rest), Pieces(rest[Decode(rest).size..]), room);
    }
  }

  // ---------- the scan of the fast path ----------

  predicate Control(c: char) {
    (c as int) < 0x20 || c as int == 0x7F
  }

  predicate OccursAt(s: string, part: string, p: nat) {
    p + |part| <= |s| && s[p..p + |part|] == part
  }

  predicate Contains(s: string, part: string) {
    exists p | 0 <= p <= |s| :: OccursAt(s, part, p)
  }

  predicate HasScrubBytes(s: string) {
    (exists i | 0 <= i < |s| :: Control(s[i])) || Contains(s, Encode(LINE_SEP)) || Contains(s, Encode(PARA_SEP))
  }

  method NeedsScrub(s: string) returns (needs: bool)
    ensures needs == HasScrubBytes(s)
  {
    for i := 0 to |s|
      invariant forall j | 0 <= j < i :: !Control(s[j])
    {
      if Control(s[i]) {
        return true;
      }
    }
    return Contains(s, Encode(LINE_SEP)) || Contains(s, Encode(PARA_SEP));
  }

  // In a valid string a rune's bytes occur only where the rune itself does.
  lemma {:induction false} RuneOccurs(s: string, code: int)
    requires ValidString(s) && Scalar(code)
    ensures code in Runes(s) <==> Contains(s, Encode(code))
  {
    if code in Runes(s) {
      RuneHasBytes(s, code);
    }
    forall p | 0 <= p <= |s| && OccursAt(s, Encode(code), p) ensures code in Runes(s) {
      BytesMakeRune(s, code, p);
    }
  }

  lemma {:induction false} RuneHasBytes(s: string, code: int)
    requires ValidString(s) && Scalar(code) && code in Runes(s)
    ensures Contains(s, Encode(code))
  {
    EncodeUndoesDecode(s);
    if Decode(s).code == code {
      assert OccursAt(s, Encode(code), 0);
    } else {
      RuneHasBytes(s[Decode(s).size..], code);
      ContainsInRest(s, Decode(s).size, Encode(code));
    }
  }

  lemma ContainsInRest(s: string, n: nat, part: string)
    requires n <= |s| && Contains(s[n..], part)
    ensures Contains(s, part)
  {
    var p :| 0 <= p <= |s| - n && OccursAt(s[n..], part, p);
    assert s[n + p..n + p + |part|] == s[n..][p..p + |part|];
    assert OccursAt(s, part, n + p);
  }

  lemma EncodingStarts(code: int)
    requires Scalar(code)
    ensures RuneStart(Encode(code)[0])
  {
  }

  lemma BytesMakeRune(s: string, code: int, p: nat)
    requires ValidString(s) && Scalar(code) && OccursAt(s, Encode(code), p)
    ensures code in Runes(s)
  {
    EncodingStarts(code);
    var bytes := Encode(code);
    assert s[p] == s[p..p + |bytes|][0];
    BoundaryIff(s, p);
    var rest := s[p + |bytes|..];
    assert s[p..] == bytes + rest;
    DecodeUndoesEncode(code, rest);
    assert code in Runes(s[p..]);
  }

  // On a valid string the byte scan finds exactly the strings that hold a rune to replace.
  lemma {:induction false} NeedsScrubIff(s: string)
    requires ValidString(s)
    ensures HasScrubBytes(s) <==> exists code :: code in Runes(s) && Scrubbed(code)
  {
    RuneOccurs(s, LINE_SEP);
    RuneOccurs(s, PARA_SEP);
    forall i | 0 <= i < |s| && Control(s[i]) ensures s[i] as int in Runes(s) && Scrubbed(s[i] as int) {
      assert OccursAt(s, Encode(s[i] as int), i);
      RuneOccurs(s, s[i] as int);
    }
    forall code | code in Runes(s) && Scrubbed(code) && code < 0x80 ensures exists i | 0 <= i < |s| :: Control(s[i]) {
      RunesEncode(s);
      RuneOccurs(s, code);
      var p :| 0 <= p <= |s| && OccursAt(s, Encode(code), p);
      assert s[p] == s[p..p + 1][0];
      assert Control(s[p]);
    }
  }

  // ---------- what comes out ----------

  function CleanCode(code: int): int {
    if Scrubbed(code) then RUNE_ERROR else code
  }

  function CleanCodes(codes: seq<int>): seq<int> {
    seq(|codes|, i requires 0 <= i < |codes| => CleanCode(codes[i]))
  }

  lemma FittingCons(piece: string, pieces: seq<string>, room: nat)
    requires |piece| <= room
    ensures Fitting([piece] + pieces, room) == [piece] + Fitting(pieces, room - |piece|)
    ensures Joined([piece] + Fitting(pieces, room - |piece|)) == piece + Joined(Fitting(pieces, room - |piece|))
  {
    assert ([piece] + pieces)[1..] == pieces;
    assert ([piece] + Fitting(pieces, room - |piece|))[1..] == Fitting(pieces, room - |piece|);
  }

  // A piece is the encoding of one rune, none to scrub.
  lemma PieceIsClean(s: string)
    requires s != ""
    ensures var code := CleanCode(Decode(s).code); Scalar(code) && !Scrubbed(code) && Piece(s) == Encode(code)
  {
    if !Malformed(Decode(s)) {
      EncodeUndoesDecode(s);
    }
  }

  lemma {:induction false} OnePiecePerRune(s: string)
    ensures |Pieces(s)| == |Runes(s)|
  {
    if s != "" {
      OnePiecePerRune(s[Decode(s).size..]);
    }
  }

  // The longest run of pieces that fits, rune for rune.
  lemma {:induction false} FittingIsLongest(s: string, room: nat, k: nat)
    requires k == |Fitting(Pieces(s), room)|
    ensures k <= |Pieces(s)| && k <= |Runes(s)|
    ensures Fitting(Pieces(s), room) == Pieces(s)[..k]
    ensures |Joined(Pieces(s)[..k])| <= room
    ensures k < |Pieces(s)| ==> |Joined(Pieces(s)[..k])| + |Pieces(s)[k]| > room
    ensures ValidString(Joined(Pieces(s)[..k])) && Runes(Joined(Pieces(s)[..k])) == CleanCodes(Runes(s)[..k])
    decreases |s|
  {
    if s != "" && |Piece(s)| <= room {
      var rest := s[Decode(s).size..];
      FittingCons(Piece(s), Pieces(rest), room);
      FittingIsLongest(rest, room - |Piece(s)|, k - 1);
      TakePieces(s, k);
      PieceIsClean(s);
      EncodedRune(CleanCode(Decode(s).code), Joined(Pieces(rest)[..k - 1]));
    }
  }

  // The first k pieces are the first one and k - 1 of the rest; the runes likewise.
  lemma {:induction false} TakePieces(s: string, k: nat)
    requires s != "" && 1 <= k
    requires var rest := s[Decode(s).size..]; k - 1 <= |Pieces(rest)| && k - 1 <= |Runes(rest)|
    ensures k <= |Pieces(s)| && k <= |Runes(s)|
    ensures var rest := s[Decode(s).size..];
            && Pieces(s)[..k] == [Piece(s)] + Pieces(rest)[..k - 1]
            && Joined(Pieces(s)[..k]) == Piece(s) + Joined(Pieces(rest)[..k - 1])
            && |Pieces(s)| == 1 + |Pieces(rest)| && (k < |Pieces(s)| ==> Pieces(s)[k] == Pieces(rest)[k - 1])
            && CleanCodes(Runes(s)[..k]) == [CleanCode(Decode(s).code)] + CleanCodes(Runes(rest)[..k - 1])
  {
    var rest := s[Decode(s).size..];
    TakeCons(Piece(s), Pieces(rest), k);
    JoinedCons(Piece(s), Pieces(rest)[..k - 1]);
    TakeCons(Decode(s).code, Runes(rest), k);
    CleanCodesCons(Decode(s).code, Runes(rest)[..k - 1]);
  }

  lemma TakeCons<T>(x: T, xs: seq<T>, k: nat)
    requires 1 <= k <= 1 + |xs|
    ensures ([x] + xs)[..k] == [x] + xs[..k - 1]
    ensures k <= |xs| ==> ([x] + xs)[k] == xs[k - 1]
  {
  }

  lemma CleanCodesCons(code: int, codes: seq<int>)
    ensures CleanCodes([code] + codes) == [CleanCode(code)] + CleanCodes(codes)
  {
  }

  lemma EncodedRune(code: int, rest: string)
    requires Scalar(code) && ValidString(rest)
    ensures ValidString(Encode(code) + rest) && Runes(Encode(code) + rest) == [code] + Runes(rest)
  {
    DecodeUndoesEncode(code, rest);
    assert (Encode(code) + rest)[|Encode(code)|..] == rest;
  }

  // The output is valid, at most 256 bytes, and free of scrubbed runes; its runes are
  // those of the input in order, replaced where they must be, for as long as they fit.
  lemma {:induction false} CleanIsSafe(s: string)
    ensures ValidString(Clean(s)) && |Clean(s)| <= MAX_LOG_VALUE_LEN
    ensures forall code | code in Runes(Clean(s)) :: !Scrubbed(code)
    ensures |Runes(Clean(s))| <= |Runes(s)| && Runes(Clean(s)) == CleanCodes(Runes(s)[..|Runes(Clean(s))|])
    ensures |Pieces(s)| == |Runes(s)|
    ensures |Runes(Clean(s))| < |Runes(s)| ==>
            |Clean(s)| + |Pieces(s)[|Runes(Clean(s))|]| > MAX_LOG_VALUE_LEN
  {
    OnePiecePerRune(s);
    FittingIsLongest(s, MAX_LOG_VALUE_LEN, |Fitting(Pieces(s), MAX_LOG_VALUE_LEN)|);
  }

  lemma {:induction false} AllPiecesKept(s: string)
    requires ValidString(s) && forall code | code in Runes(s) :: !Scrubbed(code)
    ensures Joined(Pieces(s)) == s
  {
    if s != "" {
      HeadKept(s);
      AllPiecesKept(s[Decode(s).size..]);
      JoinedCons(Piece(s), Pieces(s[Decode(s).size..]));
      assert s == s[..Decode(s).size] + s[Decode(s).size..];
    }
  }

  lemma HeadKept(s: string)
    requires s != "" && ValidString(s) && forall code | code in Runes(s) :: !Scrubbed(code)
    ensures Piece(s) == s[..Decode(s).size]
    ensures forall code | code in Runes(s[Decode(s).size..]) :: !Scrubbed(code)
  {
    assert Runes(s)[0] == Decode(s).code && Runes(s)[1..] == Runes(s[Decode(s).size..]);
  }

  lemma JoinedCons(piece: string, pieces: seq<string>)
    ensures Joined([piece] + pieces) == piece + Joined(pieces)
  {
    assert ([piece] + pieces)[1..] == pieces;
  }

  lemma {:induction false} ShortPiecesFit(pieces: seq<string>, room: nat)
    requires |Joined(pieces)| <= room
    ensures Fitting(pieces, room) == pieces
  {
    if pieces != [] {
      ShortPiecesFit(pieces[1..], room - |pieces[0]|);
    }
  }

  // A value comes out unchanged exactly when it was safe already.
  lemma {:induction false} UnchangedIff(s: string)
    ensures Clean(s) == s <==>
            |s| <= MAX_LOG_VALUE_LEN && ValidString(s) && forall code | code in Runes(s) :: !Scrubbed(code)
  {
    CleanIsSafe(s);
    if |s| <= MAX_LOG_VALUE_LEN && ValidString(s) && forall code | code in Runes(s) :: !Scrubbed(code) {
      AllPiecesKept(s);
      ShortPiecesFit(Pieces(s), MAX_LOG_VALUE_LEN);
    }
  }

  lemma CleanTwice(s: string)
    ensures Clean(Clean(s)) == Clean(s)
  {
    CleanIsSafe(s);
    UnchangedIff(Clean(s));
  }
}
