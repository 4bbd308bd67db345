/**
 * Header decoding for the IMAP client: the RFC 2047 encoded-word scanner,
 * the Q decoding of section 4.2 of RFC 2047, and the subject/sender text
 * built from an IMAP envelope.
 */
module Gmail {
  import opened Wrappers
  import opened Text

  /** A byte (`u8`). */
  type byte = x: int | 0 <= x < 256

  /**
   * Library conversions taken as parameters: `str::as_bytes` (UTF-8
   * encoding), `String::from_utf8_lossy`, and the standard-alphabet base64
   * decoder, which fails with `None`.
   */
  datatype Codecs = Codecs(
    utf8: string -> seq<byte>,
    lossy: seq<byte> -> string,
    base64: seq<byte> -> Option<seq<byte>>)

  const Underscore: byte := 0x5F
  const Equals: byte := 0x3D
  const Space: byte := 0x20

  /** `hex_val`: the value of an ASCII hexadecimal digit of either case. */
  function HexVal(b: byte): (r: Option<byte>)
    ensures r.Some? <==> (0x30 <= b <= 0x39 || 0x61 <= b <= 0x66 || 0x41 <= b <= 0x46)
    ensures r.Some? ==> r.value < 16
  {
    if 0x30 <= b <= 0x39 then Some(b - 0x30)
    else if 0x61 <= b <= 0x66 then Some(b - 0x61 + 10)
    else if 0x41 <= b <= 0x46 then Some(b - 0x41 + 10)
    else None
  }

  /** The upper-case hexadecimal digit of a value below 16. */
  function UpperHex(v: nat): byte
    requires v < 16
  {
    if v < 10 then 0x30 + v else 0x41 + v - 10
  }

  /** The lower-case hexadecimal digit of a value below 16. */
  function LowerHex(v: nat): byte
    requires v < 16
  {
    if v < 10 then 0x30 + v else 0x61 + v - 10
  }

  /** `hex_val` gives back the standard value of every digit, in both cases. */
  lemma HexValDigits(v: nat)
    requires v < 16
    ensures HexVal(UpperHex(v)) == Some(v)
    ensures HexVal(LowerHex(v)) == Some(v)
  {
  }

  /**
   * The Q decoding performed by `decode_q`: `_` is a space, `=` with two
   * hexadecimal digits after it is one byte, anything else (including an
   * `=` too near the end or before non-digits) is copied.
   */
  function DecodeQSpec(bs: seq<byte>): (r: seq<byte>)
    ensures |r| <= |bs|
  {
    if bs == [] then []
    else if bs[0] == Underscore then [Space] + DecodeQSpec(bs[1..])
    else if bs[0] == Equals && 2 < |bs| && HexVal(bs[1]).Some? && HexVal(bs[2]).Some? then
      [HexVal(bs[1]).value * 16 + HexVal(bs[2]).value] + DecodeQSpec(bs[3..])
    else [bs[0]] + DecodeQSpec(bs[1..])
  }

  /** `decode_q`: the byte loop of the Q decoder. */
  method DecodeQ(encoded: seq<byte>) returns (out: seq<byte>)
    ensures out == DecodeQSpec(encoded)
  {
    out := [];
    var i := 0;
    while i < |encoded|
      invariant i <= |encoded|
      invariant out + DecodeQSpec(encoded[i..]) == DecodeQSpec(encoded)
    {
      var b := encoded[i];
      var step: nat := 1;
      var piece: seq<byte>;
      if b == Underscore {
        piece := [Space];
      } else if b == Equals && i + 2 < |encoded| && HexVal(encoded[i + 1]).Some? && HexVal(encoded[i + 2]).Some? {
        piece := [HexVal(encoded[i + 1]).value * 16 + HexVal(encoded[i + 2]).value];
        step := 3;
      } else {
        piece := [b];
      }
      DecodeQStep(encoded, i, piece, step);
      Regroup(out, piece, DecodeQSpec(encoded[i..]), DecodeQSpec(encoded), DecodeQSpec(encoded[i + step..]));
      out := out + piece;
      i := i + step;
    }
    assert encoded[i..] == [];
  }

  /** Regrouping the decoded prefix: emitting a piece keeps prefix-plus-rest fixed. */
  lemma Regroup(out: seq<byte>, piece: seq<byte>, rest: seq<byte>, whole: seq<byte>, tail: seq<byte>)
    requires out + rest == whole && rest == piece + tail
    ensures (out + piece) + tail == whole
  {
  }

  /** One step of the decoding loop: the piece emitted at position `i`, then the rest. */
  lemma DecodeQStep(encoded: seq<byte>, i: nat, piece: seq<byte>, step: nat)
    requires i < |encoded| && i + step <= |encoded|
    requires encoded[i] == Underscore ==> piece == [Space] && step == 1
    requires encoded[i] != Underscore && encoded[i] == Equals && i + 2 < |encoded| && HexVal(encoded[i + 1]).Some? && HexVal(encoded[i + 2]).Some?
      ==> piece == [HexVal(encoded[i + 1]).value * 16 + HexVal(encoded[i + 2]).value] && step == 3
    requires encoded[i] != Underscore && !(encoded[i] == Equals && i + 2 < |encoded| && HexVal(encoded[i + 1]).Some? && HexVal(encoded[i + 2]).Some?)
      ==> piece == [encoded[i]] && step == 1
    ensures DecodeQSpec(encoded[i..]) == piece + DecodeQSpec(encoded[i + step..])
  {
    var rest := encoded[i..];
    assert rest[step..] == encoded[i + step..];
  }

  /** Bytes a Q encoder may leave as they are: printable ASCII other than `=`, `?` and `_`. */
  predicate QSafe(b: byte) {
    0x21 <= b <= 0x7E && b != Equals && b != 0x3F && b != Underscore
  }

  /** Q encoding of one byte: space as `_`, safe bytes as themselves, the rest as `=XX`. */
  function EncodeQByte(b: byte): seq<byte> {
    if b == Space then [Underscore]
    else if QSafe(b) then [b]
    else [Equals, UpperHex(b / 16), UpperHex(b % 16)]
  }

  /** Q encoding of a byte string. */
  function EncodeQ(bs: seq<byte>): seq<byte> {
    if bs == [] then [] else EncodeQByte(bs[0]) + EncodeQ(bs[1..])
  }

  /** Decoding one encoded byte followed by anything decodes that byte, then the rest. */
  lemma DecodeQByte(b: byte, rest: seq<byte>)
    ensures DecodeQSpec(EncodeQByte(b) + rest) == [b] + DecodeQSpec(rest)
  {
    var s := EncodeQByte(b) + rest;
    if b == Space {
      assert s[1..] == rest;
    } else if QSafe(b) {
      assert s[1..] == rest;
    } else {
      HexValDigits(b / 16);
      HexValDigits(b % 16);
      assert s[3..] == rest;
    }
  }

  /** `decode_q` inverts Q encoding. */
  lemma {:induction false} DecodeQEncodeQ(bs: seq<byte>)
    ensures DecodeQSpec(EncodeQ(bs)) == bs
  {
    if bs != [] {
      DecodeQByte(bs[0], EncodeQ(bs[1..]));
      DecodeQEncodeQ(bs[1..]);
      assert bs == [bs[0]] + bs[1..];
    }
  }

  /** `decode_b`: the base64 decoding, or the raw bytes when they are not valid base64. */
  function DecodeB(codecs: Codecs, encoded: string): (r: seq<byte>)
    ensures codecs.base64(codecs.utf8(encoded)).None? ==> r == codecs.utf8(encoded)
  {
    match codecs.base64(codecs.utf8(encoded))
    case Some(decoded) => decoded
    case None => codecs.utf8(encoded)
  }

  /**
   * The encoding tag test of `decode_encoded_word`: the tag lowercased
   * (ASCII only) is the one-letter text `[c]`.
   */
  predicate TagIs(encoding: string, c: char) {
    |encoding| == 1 && LowerChar(encoding[0]) == c
  }

  /** The tag test is `to_ascii_lowercase` followed by a comparison. */
  lemma TagIsLower(encoding: string, c: char)
    ensures TagIs(encoding, c) <==> Lower(encoding) == [c]
  {
    if Lower(encoding) == [c] {
      assert Lower(encoding)[0] == LowerChar(encoding[0]);
    }
  }

  /** The payload bytes, decoded as the tag says: `q`, `b`, or raw bytes for any other tag. */
  function WordBytes(codecs: Codecs, encoding: string, encoded: string): seq<byte> {
    if TagIs(encoding, 'q') then DecodeQSpec(codecs.utf8(encoded))
    else if TagIs(encoding, 'b') then DecodeB(codecs, encoded)
    else codecs.utf8(encoded)
  }

  /**
   * `decode_encoded_word`: the payload bytes read as UTF-8. Both arms of the
   * charset match (`utf-8`/`utf8` and every other label) convert the same
   * way, so the charset is never consulted.
   */
  function DecodeEncodedWord(codecs: Codecs, charset: string, encoding: string, encoded: string): string {
    codecs.lossy(WordBytes(codecs, encoding, encoded))
  }

  /** The tag is case-insensitive and the charset label is never consulted. */
  lemma DecodeEncodedWordTags(codecs: Codecs, charset: string, other: string, encoded: string)
    ensures DecodeEncodedWord(codecs, charset, "Q", encoded) == DecodeEncodedWord(codecs, other, "q", encoded)
    ensures DecodeEncodedWord(codecs, charset, "B", encoded) == DecodeEncodedWord(codecs, other, "b", encoded)
  {
  }

  /** A tag other than `q` and `b` (in either case) leaves the payload undecoded. */
  lemma UnknownTagRaw(codecs: Codecs, charset: string, encoding: string, encoded: string)
    requires Lower(encoding) != "q" && Lower(encoding) != "b"
    ensures DecodeEncodedWord(codecs, charset, encoding, encoded) == codecs.lossy(codecs.utf8(encoded))
  {
    TagIsLower(encoding, 'q');
    TagIsLower(encoding, 'b');
  }

  /** A `q` tag, in either case, selects the Q decoding. */
  lemma QTagDecodes(codecs: Codecs, charset: string, encoding: string, encoded: string)
    requires Lower(encoding) == "q"
    ensures DecodeEncodedWord(codecs, charset, encoding, encoded) == codecs.lossy(DecodeQSpec(codecs.utf8(encoded)))
  {
    TagIsLower(encoding, 'q');
  }

  /** The text before and after the first occurrence of `pat` (`find` followed by two slices). */
  function SplitAt(s: string, pat: string): (r: Option<(string, string)>)
    ensures r.Some? <==> Find(s, pat).Some?
    ensures r.Some? ==> |r.value.0| == Find(s, pat).value && r.value.1 == s[Find(s, pat).value + |pat|..]
  {
    match Find(s, pat)
    case None => None
    case Some(i) => Some((s[..i], s[i + |pat|..]))
  }

  /** The two sides of a split, with the pattern between them, make up the string. */
  lemma SplitAtShape(s: string, pat: string)
    requires SplitAt(s, pat).Some?
    ensures s == SplitAt(s, pat).value.0 + pat + SplitAt(s, pat).value.1
  {
    var i := Find(s, pat).value;
    assert s == s[..i] + s[i..i + |pat|] + s[i + |pat|..];
  }

  /** The pieces of a complete encoded-word. */
  function EncodedWord(charset: string, encoding: string, encoded: string): string {
    "=?" + charset + "?" + encoding + "?" + encoded + "?="
  }

  /** Reassembles an encoded-word from the pieces the scanner splits off one by one. */
  lemma WordShape(s: string, pre: string, rest: string, charset: string, rest2: string, encoding: string, rest3: string, encoded: string, post: string)
    requires s == pre + "=?" + rest
    requires rest == charset + "?" + rest2
    requires rest2 == encoding + "?" + rest3
    requires rest3 == encoded + "?=" + post
    ensures s == pre + EncodedWord(charset, encoding, encoded) + post
  {
    var w := EncodedWord(charset, encoding, encoded);
    assert |s| == |pre| + |w| + |post|;
    forall i | 0 <= i < |s| ensures s[i] == (pre + w + post)[i] {
    }
  }

  /** What the scanner finds in the remaining input. */
  datatype Scan =
    | NoMarker
    | Incomplete(pre: string, post: string)
    | Word(pre: string, charset: string, encoding: string, encoded: string, post: string)

  /**
   * One step of `decode_rfc2047_words`: the first `=?`, and whether a
   * `?`, another `?` and a closing `?=` follow it.
   */
  function ScanWord(s: string): (r: Scan)
    ensures r.NoMarker? <==> Find(s, "=?").None?
    ensures !r.NoMarker? ==> |r.post| < |s|
  {
    match SplitAt(s, "=?")
    case None => NoMarker
    case Some((pre, rest)) =>
      match SplitAt(rest, "?")
      case None => Incomplete(pre, rest)
      case Some((charset, rest2)) =>
        match SplitAt(rest2, "?")
        case None => Incomplete(pre, rest)
        case Some((encoding, rest3)) =>
          match SplitAt(rest3, "?=")
          case None => Incomplete(pre, rest)
          case Some((encoded, post)) => Word(pre, charset, encoding, encoded, post)
  }

  /** What the scanner splits off reassembles the input; `pre` holds no `=?`. */
  lemma ScanWordShape(s: string)
    ensures ScanWord(s).Incomplete? ==> s == ScanWord(s).pre + "=?" + ScanWord(s).post
    ensures ScanWord(s).Word? ==> s == ScanWord(s).pre + EncodedWord(ScanWord(s).charset, ScanWord(s).encoding, ScanWord(s).encoded) + ScanWord(s).post
    ensures !ScanWord(s).NoMarker? ==> Find(s, "=?") == Some(|ScanWord(s).pre|)
  {
    if !ScanWord(s).NoMarker? {
      SplitAtShape(s, "=?");
      var rest := SplitAt(s, "=?").value.1;
      if ScanWord(s).Word? {
        SplitAtShape(rest, "?");
        var rest2 := SplitAt(rest, "?").value.1;
        SplitAtShape(rest2, "?");
        var rest3 := SplitAt(rest2, "?").value.1;
        SplitAtShape(rest3, "?=");
        WordShape(s, SplitAt(s, "=?").value.0, rest, SplitAt(rest, "?").value.0, rest2,
          SplitAt(rest2, "?").value.0, rest3, SplitAt(rest3, "?=").value.0, SplitAt(rest3, "?=").value.1);
      }
    }
  }

  /**
   * The output of `decode_rfc2047_words`: text outside encoded-words is
   * copied, each complete encoded-word is replaced by its decoding, and an
   * `=?` that does not start a complete word is copied as it is.
   */
  function DecodeWordsSpec(codecs: Codecs, s: string): string
    decreases |s|
  {
    match ScanWord(s)
    case NoMarker => s
    case Incomplete(pre, post) => pre + "=?" + DecodeWordsSpec(codecs, post)
    case Word(pre, charset, encoding, encoded, post) =>
      pre + DecodeEncodedWord(codecs, charset, encoding, encoded) + DecodeWordsSpec(codecs, post)
  }

  /** `decode_rfc2047_words`: the scanning loop; `index` grows on every iteration. */
  method DecodeRfc2047Words(codecs: Codecs, input: string) returns (output: string)
    ensures output == DecodeWordsSpec(codecs, input)
  {
    output := [];
    var index := 0;
    while Find(input[index..], "=?").Some?
      invariant index <= |input|
      invariant output + DecodeWordsSpec(codecs, input[index..]) == DecodeWordsSpec(codecs, input)
      decreases |input| - index
    {
      var tail := input[index..];
      var k := Find(tail, "=?").value;
      var piece, resume := DecodeAfterMarker(codecs, tail, k);
      StepOutput(codecs, tail, k, piece, resume);
      AppendAssoc(output, tail[..k], piece, DecodeWordsSpec(codecs, tail[resume..]));
      output := output + tail[..k] + piece;
      index := index + resume;
      assert tail[resume..] == input[index..];
    }
    output := output + input[index..];
  }

  /**
   * `piece` and `resume` are what one scanner step makes of `tail`: the
   * text before the first `=?` ends at `k`, `piece` replaces the encoded-word
   * (or is `=?` itself when the word is incomplete) and the rest of `tail`
   * from `resume` on is left to scan.
   */
  predicate ScannedStep(codecs: Codecs, tail: string, k: nat, piece: string, resume: nat)
    requires k <= resume <= |tail|
  {
    match ScanWord(tail)
    case NoMarker => false
    case Incomplete(pre, post) => pre == tail[..k] && piece == "=?" && post == tail[resume..]
    case Word(pre, charset, encoding, encoded, post) =>
      pre == tail[..k] && piece == DecodeEncodedWord(codecs, charset, encoding, encoded) && post == tail[resume..]
  }

  /** The first `=?` at `k` splits the text around it. */
  lemma MarkerAt(tail: string, k: nat)
    requires Find(tail, "=?") == Some(k)
    ensures k + 2 <= |tail|
    ensures SplitAt(tail, "=?") == Some((tail[..k], tail[k + 2..]))
  {
  }

  /** What one scanner step contributes to the decoded text. */
  lemma StepOutput(codecs: Codecs, tail: string, k: nat, piece: string, resume: nat)
    requires k <= resume <= |tail|
    requires ScannedStep(codecs, tail, k, piece, resume)
    ensures DecodeWordsSpec(codecs, tail) == tail[..k] + piece + DecodeWordsSpec(codecs, tail[resume..])
  {
    DecodeScanned(codecs, tail);
  }

  /** Regrouping four concatenated strings. */
  lemma AppendAssoc(a: string, b: string, c: string, d: string)
    ensures a + b + c + d == a + (b + c + d)
  {
  }

  /**
   * The body of one iteration, on the text `tail` still to scan whose first
   * `=?` is at `k`: the text it emits (the decoded word, or `=?` when the
   * word is incomplete) and the position in `tail` where scanning resumes;
   * this is one step of the scanner.
   */
  method DecodeAfterMarker(codecs: Codecs, tail: string, k: nat) returns (piece: string, resume: nat)
    requires Find(tail, "=?") == Some(k)
    ensures k + 2 <= resume <= |tail|
    ensures ScannedStep(codecs, tail, k, piece, resume)
  {
    MarkerAt(tail, k);
    var q1 := Find(tail[k + 2..], "?");
    if q1.None? {
      ScanNoCharset(tail, tail[..k], tail[k + 2..]);
      piece, resume := "=?", k + 2;
    } else {
      piece, resume := DecodeAfterCharset(codecs, tail, k, q1.value);
    }
  }

  /** The rest of one step once the charset, ending at `q1` past the marker, is known. */
  method DecodeAfterCharset(codecs: Codecs, tail: string, k: nat, q1: nat) returns (piece: string, resume: nat)
    requires Find(tail, "=?") == Some(k)
    requires k + 2 <= |tail|
    requires Find(tail[k + 2..], "?") == Some(q1)
    ensures k + 2 <= resume <= |tail|
    ensures ScannedStep(codecs, tail, k, piece, resume)
  {
    MarkerAt(tail, k);
    var q2 := Find(tail[k + 2..][q1 + 1..], "?");
    if q2.None? {
      ScanNoEncoding(tail, tail[..k], tail[k + 2..], q1);
      piece, resume := "=?", k + 2;
    } else {
      piece, resume := DecodeAfterEncoding(codecs, tail, k, q1, q2.value);
    }
  }

  /** The rest of one step once the encoding, ending at `q2` past the charset, is known. */
  method DecodeAfterEncoding(codecs: Codecs, tail: string, k: nat, q1: nat, q2: nat) returns (piece: string, resume: nat)
    requires Find(tail, "=?") == Some(k)
    requires k + 2 <= |tail|
    requires Find(tail[k + 2..], "?") == Some(q1)
    requires Find(tail[k + 2..][q1 + 1..], "?") == Some(q2)
    ensures k + 2 <= resume <= |tail|
    ensures ScannedStep(codecs, tail, k, piece, resume)
  {
    var rest3 := tail[k + 2..][q1 + 1..][q2 + 1..];
    var q3 := Find(rest3, "?=");
    if q3.None? {
      MarkerAt(tail, k);
      ScanNoCloser(tail, tail[..k], tail[k + 2..], q1, q2);
      piece, resume := "=?", k + 2;
    } else {
      var encoded := rest3[..q3.value];
      piece := DecodeEncodedWord(codecs, tail[k + 2..][..q1], tail[k + 2..][q1 + 1..][..q2], encoded);
      resume := k + 2 + q1 + 1 + q2 + 1 + q3.value + 2;
      WordStep(codecs, tail, k, q1, q2, q3.value);
    }
  }

  /** A complete word after the marker at `k`: the step emits its decoding and resumes after its `?=`. */
  lemma WordStep(codecs: Codecs, tail: string, k: nat, q1: nat, q2: nat, q3: nat)
    requires Find(tail, "=?") == Some(k)
    requires k + 2 <= |tail|
    requires Find(tail[k + 2..], "?") == Some(q1)
    requires Find(tail[k + 2..][q1 + 1..], "?") == Some(q2)
    requires Find(tail[k + 2..][q1 + 1..][q2 + 1..], "?=") == Some(q3)
    ensures k + 2 + q1 + 1 + q2 + 1 + q3 + 2 <= |tail|
    ensures ScannedStep(codecs, tail, k,
      DecodeEncodedWord(codecs, tail[k + 2..][..q1], tail[k + 2..][q1 + 1..][..q2], tail[k + 2..][q1 + 1..][q2 + 1..][..q3]),
      k + 2 + q1 + 1 + q2 + 1 + q3 + 2)
  {
    MarkerAt(tail, k);
    ScanComplete(tail, tail[..k], tail[k + 2..], q1, q2, q3);
    ResumeAfterWord(tail, k, q1, q2, q3);
  }

  /** Where scanning resumes after a complete word, as an index into the scanned text. */
  lemma ResumeAfterWord(tail: string, k: nat, q1: nat, q2: nat, q3: nat)
    requires k + 2 <= |tail|
    requires q1 + 1 <= |tail[k + 2..]|
    requires q2 + 1 <= |tail[k + 2..][q1 + 1..]|
    requires q3 + 2 <= |tail[k + 2..][q1 + 1..][q2 + 1..]|
    ensures k + 2 + q1 + 1 + q2 + 1 + q3 + 2 <= |tail|
    ensures tail[k + 2 + q1 + 1 + q2 + 1 + q3 + 2..] == tail[k + 2..][q1 + 1..][q2 + 1..][q3 + 2..]
  {
  }

  /** The decoder's output, one scanning step at a time. */
  lemma DecodeScanned(codecs: Codecs, s: string)
    ensures ScanWord(s).Incomplete? ==>
      DecodeWordsSpec(codecs, s) == ScanWord(s).pre + "=?" + DecodeWordsSpec(codecs, ScanWord(s).post)
    ensures ScanWord(s).Word? ==>
      DecodeWordsSpec(codecs, s)
      == ScanWord(s).pre + DecodeEncodedWord(codecs, ScanWord(s).charset, ScanWord(s).encoding, ScanWord(s).encoded)
         + DecodeWordsSpec(codecs, ScanWord(s).post)
  {
  }

  /** No `?` after the marker: the word is incomplete and scanning goes on after `=?`. */
  lemma ScanNoCharset(tail: string, pre: string, rest: string)
    requires SplitAt(tail, "=?") == Some((pre, rest))
    requires Find(rest, "?").None?
    ensures ScanWord(tail) == Incomplete(pre, rest)
  {
  }

  /** No second `?`: the word is incomplete and scanning goes on after `=?`. */
  lemma ScanNoEncoding(tail: string, pre: string, rest: string, q1: nat)
    requires SplitAt(tail, "=?") == Some((pre, rest))
    requires Find(rest, "?") == Some(q1)
    requires Find(rest[q1 + 1..], "?").None?
    ensures ScanWord(tail) == Incomplete(pre, rest)
  {
  }

  /** No closing `?=`: the word is incomplete and scanning goes on after `=?`. */
  lemma ScanNoCloser(tail: string, pre: string, rest: string, q1: nat, q2: nat)
    requires SplitAt(tail, "=?") == Some((pre, rest))
    requires Find(rest, "?") == Some(q1)
    requires Find(rest[q1 + 1..], "?") == Some(q2)
    requires Find(rest[q1 + 1..][q2 + 1..], "?=").None?
    ensures ScanWord(tail) == Incomplete(pre, rest)
  {
  }

  /** A complete word: the scanner splits off its charset, encoding and payload, and resumes after `?=`. */
  lemma ScanComplete(tail: string, pre: string, rest: string, q1: nat, q2: nat, q3: nat)
    requires SplitAt(tail, "=?") == Some((pre, rest))
    requires Find(rest, "?") == Some(q1)
    requires Find(rest[q1 + 1..], "?") == Some(q2)
    requires Find(rest[q1 + 1..][q2 + 1..], "?=") == Some(q3)
    ensures ScanWord(tail)
         == Word(pre, rest[..q1], rest[q1 + 1..][..q2], rest[q1 + 1..][q2 + 1..][..q3], rest[q1 + 1..][q2 + 1..][q3 + 2..])
  {
  }

  /** Input without `=?` comes back unchanged. */
  lemma NoEncodedWords(codecs: Codecs, s: string)
    requires Find(s, "=?").None?
    ensures DecodeWordsSpec(codecs, s) == s
  {
  }

  /**
   * A complete encoded-word after plain text is replaced by its decoding,
   * the text before it is copied and scanning goes on after its `?=`.
   */
  lemma DecodeWord(codecs: Codecs, pre: string, charset: string, encoding: string, encoded: string, post: string)
    requires Find(pre, "=?").None?
    requires Lacks(charset, '?') && Lacks(encoding, '?')
    requires Find(encoded, "?=").None?
    ensures DecodeWordsSpec(codecs, pre + EncodedWord(charset, encoding, encoded) + post)
         == pre + DecodeEncodedWord(codecs, charset, encoding, encoded) + DecodeWordsSpec(codecs, post)
  {
    ScanEncodedWord(pre, charset, encoding, encoded, post);
    DecodeScanned(codecs, pre + EncodedWord(charset, encoding, encoded) + post);
  }

  /** The scanner splits a complete encoded-word after plain text into its parts. */
  lemma ScanEncodedWord(pre: string, charset: string, encoding: string, encoded: string, post: string)
    requires Find(pre, "=?").None?
    requires Lacks(charset, '?') && Lacks(encoding, '?')
    requires Find(encoded, "?=").None?
    ensures ScanWord(pre + EncodedWord(charset, encoding, encoded) + post) == Word(pre, charset, encoding, encoded, post)
  {
    var rest3 := encoded + "?=" + post;
    var rest2 := encoding + "?" + rest3;
    var rest := charset + "?" + rest2;
    EncodedWordNest(pre, charset, encoding, encoded, post);
    MarkerSplit(pre, rest);
    CharSplit(charset, rest2, '?');
    CharSplit(encoding, rest3, '?');
    CloserSplit(encoded, post);
  }

  /** An encoded-word between two texts, regrouped as the scanner takes it apart. */
  lemma EncodedWordNest(pre: string, charset: string, encoding: string, encoded: string, post: string)
    ensures pre + EncodedWord(charset, encoding, encoded) + post
         == pre + "=?" + (charset + "?" + (encoding + "?" + (encoded + "?=" + post)))
  {
    var w := EncodedWord(charset, encoding, encoded);
    var t := pre + "=?" + (charset + "?" + (encoding + "?" + (encoded + "?=" + post)));
    assert |pre + w + post| == |t|;
    forall i | 0 <= i < |t| ensures (pre + w + post)[i] == t[i] {
    }
  }

  /** A text without `c`, then `c`: the split at the first `c` gives the two sides. */
  lemma CharSplit(w: string, r: string, c: char)
    requires Lacks(w, c)
    ensures SplitAt(w + [c] + r, [c]) == Some((w, r))
  {
    var s := w + [c] + r;
    assert s[..|w|] == w && s[|w|] == c && s[|w| + 1..] == r;
    FirstChar(w, s, c);
  }

  /** A text without `?=`, then `?=`: the split at the first `?=` gives the two sides. */
  lemma CloserSplit(w: string, r: string)
    requires Find(w, "?=").None?
    ensures SplitAt(w + "?=" + r, "?=") == Some((w, r))
  {
    var s := w + "?=" + r;
    assert s[..|w|] == w && s[|w|..|w| + 2] == "?=" && s[|w| + 2..] == r;
    FirstPairAfter("?=", w, s);
  }

  /** Plain text without `=?` followed by `=?` splits at that marker. */
  lemma MarkerSplit(pre: string, rest: string)
    requires Find(pre, "=?").None?
    ensures SplitAt(pre + "=?" + rest, "=?") == Some((pre, rest))
  {
    var s := pre + "=?" + rest;
    FirstPairAfter("=?", pre, s);
    assert s[..|pre|] == pre && s[|pre| + 2..] == rest;
  }

  /** After an `=?`, the rest of a complete encoded-word follows: a `?`, another `?`, then a closing `?=`. */
  predicate CompletesWord(post: string) {
    match Find(post, "?")
    case None => false
    case Some(q1) =>
      match Find(post[q1 + 1..], "?")
      case None => false
      case Some(q2) => Find(post[q1 + 1..][q2 + 1..], "?=").Some?
  }

  /**
   * An incomplete encoded-word (no `?` after the marker, no second `?`, or
   * no closing `?=`): `=?` is copied and scanning resumes right after it.
   */
  lemma DecodeIncomplete(codecs: Codecs, pre: string, post: string)
    requires Find(pre, "=?").None?
    requires !CompletesWord(post)
    ensures DecodeWordsSpec(codecs, pre + "=?" + post) == pre + "=?" + DecodeWordsSpec(codecs, post)
  {
    var s := pre + "=?" + post;
    MarkerSplit(pre, post);
    match Find(post, "?") {
      case None =>
        ScanNoCharset(s, pre, post);
      case Some(q1) =>
        match Find(post[q1 + 1..], "?") {
          case None =>
            ScanNoEncoding(s, pre, post, q1);
          case Some(q2) =>
            ScanNoCloser(s, pre, post, q1, q2);
        }
    }
    DecodeScanned(codecs, s);
  }

  /** Whitespace between two adjacent encoded-words is kept, not dropped as section 6.2 of RFC 2047 asks. */
  lemma AdjacentWordsKeepSpace(codecs: Codecs, cs1: string, enc1: string, text1: string, cs2: string, enc2: string, text2: string)
    requires Lacks(cs1, '?') && Lacks(enc1, '?') && Find(text1, "?=").None?
    requires Lacks(cs2, '?') && Lacks(enc2, '?') && Find(text2, "?=").None?
    ensures DecodeWordsSpec(codecs, EncodedWord(cs1, enc1, text1) + " " + EncodedWord(cs2, enc2, text2))
         == DecodeEncodedWord(codecs, cs1, enc1, text1) + " " + DecodeEncodedWord(codecs, cs2, enc2, text2)
  {
    var w2 := EncodedWord(cs2, enc2, text2);
    NoOccurrenceWithout([], "=?", '=');
    DecodeWord(codecs, [], cs1, enc1, text1, " " + w2);
    assert [] + EncodedWord(cs1, enc1, text1) + (" " + w2) == EncodedWord(cs1, enc1, text1) + " " + w2;
    NoOccurrenceWithout(" ", "=?", '=');
    DecodeWord(codecs, " ", cs2, enc2, text2, []);
    assert " " + w2 + [] == " " + w2;
    NoOccurrenceWithout([], "=?", '=');
  }

  /**
   * The first occurrence of a two-character marker with two different
   * characters (`=?` or `?=`) in `w + pat + ...` is right after `w` when `w`
   * holds none.
   */
  lemma FirstPairAfter(pat: string, w: string, s: string)
    requires |pat| == 2 && pat[0] != pat[1]
    requires Find(w, pat).None?
    requires |s| >= |w| + 2 && s[..|w|] == w && s[|w|..|w| + 2] == pat
    ensures Find(s, pat) == Some(|w|)
  {
    forall j: nat | j < |w| ensures !OccursAt(s, pat, j) {
      if j + 1 < |w| {
        assert !OccursAt(w, pat, j);
        assert s[j..j + 2] == w[j..j + 2];
      } else {
        assert s[j + 1] == pat[0];
      }
    }
    FindIs(s, pat, |w|);
  }

  /** The first `c` of `w + [c] + ...` is right after `w` when `w` lacks `c`. */
  lemma FirstChar(w: string, s: string, c: char)
    requires Lacks(w, c) && |s| > |w| && s[..|w|] == w && s[|w|] == c
    ensures Find(s, [c]) == Some(|w|)
  {
    forall j: nat | j < |w| ensures !OccursAt(s, [c], j) {
      assert s[j..j + 1] == [w[j]];
    }
    assert s[|w|..|w| + 1] == [c];
    FindIs(s, [c], |w|);
  }

  /** `decode_mime_header`: the bytes read as UTF-8, then encoded-words decoded. */
  function DecodeMimeHeader(codecs: Codecs, bytes: seq<byte>): string {
    DecodeWordsSpec(codecs, codecs.lossy(bytes))
  }

  /** One address of an IMAP envelope; each part may be absent. */
  datatype Address = Address(name: Option<seq<byte>>, mailbox: Option<seq<byte>>, host: Option<seq<byte>>)

  /** The envelope fields the client reads. */
  datatype Envelope = Envelope(
    subject: Option<seq<byte>>,
    from: Option<seq<Address>>,
    date: Option<seq<byte>>,
    messageId: Option<seq<byte>>)

  /** The header record the client returns (`GmailEmail` as the IMAP module declares it). */
  datatype GmailEmail = GmailEmail(uid: nat, messageId: string, subject: string, sender: string, date: string)

  /** The subject text: the decoded subject, or `(No Subject)` when there is none. */
  function FormatSubject(codecs: Codecs, subject: Option<seq<byte>>): (r: string)
    ensures subject.None? ==> r == "(No Subject)"
    ensures subject.Some? ==> r == DecodeMimeHeader(codecs, subject.value)
  {
    match subject
    case None => "(No Subject)"
    case Some(s) => DecodeMimeHeader(codecs, s)
  }

  /** `mailbox@host`, or empty when either part is missing or empty. */
  function AddressText(codecs: Codecs, a: Address): string {
    var mailbox := if a.mailbox.Some? then codecs.lossy(a.mailbox.value) else "";
    var host := if a.host.Some? then codecs.lossy(a.host.value) else "";
    if mailbox == [] || host == [] then [] else mailbox + "@" + host
  }

  /** The first `from` address has both a non-empty mailbox and a non-empty host. */
  predicate HasAddress(codecs: Codecs, from: Option<seq<Address>>) {
    from.Some? && |from.value| > 0 && AddressText(codecs, from.value[0]) != []
  }

  /**
   * The sender text: `name <mailbox@host>` when the first address has a
   * name, `mailbox@host` when it has none, `Unknown` when there is no usable
   * address.
   */
  function FormatSender(codecs: Codecs, from: Option<seq<Address>>): (r: string)
    ensures !HasAddress(codecs, from) ==> r == "Unknown"
    ensures HasAddress(codecs, from) ==>
      var email := AddressText(codecs, from.value[0]);
      var a := from.value[0];
      if a.name.Some? && DecodeMimeHeader(codecs, a.name.value) != []
      then r == DecodeMimeHeader(codecs, a.name.value) + " <" + email + ">"
      else r == email
  {
    if from.None? || |from.value| == 0 then "Unknown"
    else
      var a := from.value[0];
      var email := AddressText(codecs, a);
      var name := if a.name.Some? then DecodeMimeHeader(codecs, a.name.value) else "";
      if name != [] && email != [] then name + " <" + email + ">"
      else if email != [] then email
      else "Unknown"
  }

  /** The sender is `Unknown` exactly when there is no usable address; otherwise it holds `mailbox@host`. */
  lemma SenderUnknownIff(codecs: Codecs, from: Option<seq<Address>>)
    ensures FormatSender(codecs, from) == "Unknown" <==> !HasAddress(codecs, from)
    ensures HasAddress(codecs, from) ==> exists j: nat :: OccursAt(FormatSender(codecs, from), AddressText(codecs, from.value[0]), j)
  {
    if HasAddress(codecs, from) {
      var a := from.value[0];
      var email := AddressText(codecs, a);
      var mailbox := codecs.lossy(a.mailbox.value);
      var r := FormatSender(codecs, from);
      assert email[|mailbox|] == '@';
      if r == email {
        assert OccursAt(r, email, 0);
        assert r != "Unknown" by {
          assert forall i :: 0 <= i < |"Unknown"| ==> "Unknown"[i] != '@';
        }
      } else {
        var name := DecodeMimeHeader(codecs, a.name.value);
        assert r[|name| + 2..|name| + 2 + |email|] == email;
        assert OccursAt(r, email, |name| + 2);
        assert |r| > |"Unknown"| || r[|name| + 2 + |mailbox|] == '@';
      }
    }
  }

  /**
   * One fetched message: dropped without a uid or an envelope; otherwise
   * the decoded subject and sender, and the date and message id read as
   * UTF-8 (empty when absent).
   */
  function FromEnvelope(codecs: Codecs, uid: Option<nat>, envelope: Option<Envelope>): (r: Option<GmailEmail>)
    ensures r.Some? <==> uid.Some? && envelope.Some?
    ensures r.Some? ==> r.value.uid == uid.value
    ensures r.Some? && envelope.value.subject.None? ==> r.value.subject == "(No Subject)"
    ensures r.Some? && !HasAddress(codecs, envelope.value.from) ==> r.value.sender == "Unknown"
    ensures r.Some? ==> r.value.subject == FormatSubject(codecs, envelope.value.subject)
    ensures r.Some? ==> r.value.sender == FormatSender(codecs, envelope.value.from)
    ensures r.Some? ==> r.value.date == if envelope.value.date.Some? then codecs.lossy(envelope.value.date.value) else ""
    ensures r.Some? ==> r.value.messageId == if envelope.value.messageId.Some? then codecs.lossy(envelope.value.messageId.value) else ""
  {
    match uid
    case None => None
    case Some(u) =>
      match envelope
      case None => None
      case Some(env) =>
        var date := if env.date.Some? then codecs.lossy(env.date.value) else "";
        var messageId := if env.messageId.Some? then codecs.lossy(env.messageId.value) else "";
        Some(GmailEmail(u, messageId, FormatSubject(codecs, env.subject), FormatSender(codecs, env.from), date))
  }
}
