/** Sequences of code points: decoding, encoding, byte order marks, and what a whole conversion yields. */
module Transcoding {
  import opened Codepoints

  function Encode(enc: Encoding, cps: seq<codepoint>): seq<bv8> {
    if cps == [] then [] else Encode1(enc, cps[0]) + Encode(enc, cps[1..])
  }

  /** The code points of `s` and the bytes left over, too few for another code point. */
  function Decode(enc: Encoding, s: seq<bv8>): (seq<codepoint>, seq<bv8>) {
    if s == [] || Need(enc, s) > |s| then ([], s)
    else
      var (cps, rest) := Decode(enc, s[Need(enc, s)..]);
      ([Decode1(enc, s)] + cps, rest)
  }

  lemma DecodeOnce(enc: Encoding, s: seq<bv8>)
    ensures if s != [] && Need(enc, s) <= |s|
      then Decode(enc, s) == ([Decode1(enc, s)] + Decode(enc, s[Need(enc, s)..]).0, Decode(enc, s[Need(enc, s)..]).1)
      else Decode(enc, s) == ([], s)
  {
  }

  predicate Whole(enc: Encoding, s: seq<bv8>) { Decode(enc, s).1 == [] }

  predicate WellFormed(enc: Encoding, s: seq<bv8>) {
    s == [] || (WellFormed1(enc, s) && WellFormed(enc, s[Need(enc, s)..]))
  }

  predicate Scalars(cps: seq<codepoint>) { forall i :: 0 <= i < |cps| ==> Scalar(cps[i]) }

  // ----- round trips -----

  /** Decoding what was encoded returns the scalar values, with no byte left over. */
  lemma {:induction false} EncodeThenDecode(enc: Encoding, cps: seq<codepoint>)
    requires Scalars(cps)
    ensures WellFormed(enc, Encode(enc, cps)) && Decode(enc, Encode(enc, cps)) == (cps, [])
  {
    hide Encode1, Decode1, Need, WellFormed1, Scalar;
    if cps != [] {
      var first, tail := Encode1(enc, cps[0]), Encode(enc, cps[1..]);
      EncodeThenDecode1(enc, cps[0], tail);
      EncodeThenDecode(enc, cps[1..]);
      assert (first + tail)[|first|..] == tail;
      assert cps == [cps[0]] + cps[1..];
    }
  }

  lemma EncodeOnce(enc: Encoding, x: seq<codepoint>)
    ensures Encode(enc, x) == if x == [] then [] else Encode1(enc, x[0]) + Encode(enc, x[1..])
  {
  }

  lemma WellFormedOnce(enc: Encoding, s: seq<bv8>)
    ensures WellFormed(enc, s) <==> s == [] || (WellFormed1(enc, s) && WellFormed(enc, s[Need(enc, s)..]))
  {
  }

  /** Re-encoding the decoding of well-formed bytes is the identity. */
  lemma {:induction false} DecodeThenEncode(enc: Encoding, s: seq<bv8>)
    requires WellFormed(enc, s)
    ensures Whole(enc, s) && Scalars(Decode(enc, s).0) && Encode(enc, Decode(enc, s).0) == s
  {
    hide Encode, Decode, WellFormed, Encode1, Decode1, Need, WellFormed1, Scalar;
    DecodeOnce(enc, s);
    WellFormedOnce(enc, s);
    var cps := Decode(enc, s).0;
    EncodeOnce(enc, cps);
    if s != [] {
      var n := Need(enc, s);
      WellFormedFits(enc, s);
      DecodeThenEncode1(enc, s);
      DecodeThenEncode(enc, s[n..]);
      assert cps[0] == Decode1(enc, s) && cps[1..] == Decode(enc, s[n..]).0;
      assert s == s[..n] + s[n..];
    }
  }

  lemma WellFormedFits(enc: Encoding, s: seq<bv8>)
    requires WellFormed1(enc, s)
    ensures s != [] && Need(enc, s) <= |s|
  {
  }

  /** The well-formed byte sequences are exactly the encodings of scalar values. */
  lemma WellFormedIffEncoded(enc: Encoding, s: seq<bv8>)
    ensures WellFormed(enc, s) <==> exists cps :: Scalars(cps) && Encode(enc, cps) == s
  {
    if WellFormed(enc, s) {
      DecodeThenEncode(enc, s);
      assert Scalars(Decode(enc, s).0);
    }
    if cps :| Scalars(cps) && Encode(enc, cps) == s {
      EncodeThenDecode(enc, cps);
    }
  }

  function Convert(from: Encoding, to: Encoding, s: seq<bv8>): seq<bv8> { Encode(to, Decode(from, s).0) }

  /** Converting well-formed bytes through a third encoding gives the same as converting directly; there and back is the
      identity. */
  lemma ConvertComposes(a: Encoding, b: Encoding, c: Encoding, s: seq<bv8>)
    requires WellFormed(a, s)
    ensures WellFormed(b, Convert(a, b, s)) && Convert(b, c, Convert(a, b, s)) == Convert(a, c, s)
    ensures Convert(b, a, Convert(a, b, s)) == s
  {
    DecodeThenEncode(a, s);
    EncodeThenDecode(b, Decode(a, s).0);
  }

  // ----- cutting the input -----

  lemma NeedStable(enc: Encoding, s: seq<bv8>, t: seq<bv8>)
    requires s != [] && Need(enc, s) <= |s|
    ensures Need(enc, s + t) == Need(enc, s) && Decode1(enc, s + t) == Decode1(enc, s)
  {
  }

  /** Where the first part is consumed whole, decoding continues with the second part alone. */
  lemma {:induction false} DecodeAppend(enc: Encoding, s: seq<bv8>, t: seq<bv8>)
    requires Whole(enc, s)
    ensures Decode(enc, s + t) == (Decode(enc, s).0 + Decode(enc, t).0, Decode(enc, t).1)
  {
    hide Need, Decode1, Decode;
    DecodeOnce(enc, s);
    if s == [] {
      assert s + t == t && [] + Decode(enc, t).0 == Decode(enc, t).0;
    } else {
      var n := Need(enc, s);
      NeedStable(enc, s, t);
      DecodeOnce(enc, s + t);
      DecodeAppend(enc, s[n..], t);
      assert (s + t)[n..] == s[n..] + t;
      var x, y := Decode(enc, s[n..]).0, Decode(enc, t).0;
      assert [Decode1(enc, s)] + (x + y) == ([Decode1(enc, s)] + x) + y;
    }
  }

  lemma {:induction false} EncodeAppend(enc: Encoding, x: seq<codepoint>, y: seq<codepoint>)
    ensures Encode(enc, x + y) == Encode(enc, x) + Encode(enc, y)
  {
    hide Encode, Encode1;
    EncodeOnce(enc, x);
    EncodeOnce(enc, x + y);
    if x == [] {
      assert x + y == y && [] + Encode(enc, y) == Encode(enc, y);
    } else {
      EncodeAppend(enc, x[1..], y);
      assert (x + y)[1..] == x[1..] + y && (x + y)[0] == x[0];
      Associate(Encode1(enc, x[0]), Encode(enc, x[1..]), Encode(enc, y));
    }
  }

  lemma Associate<T>(a: seq<T>, b: seq<T>, c: seq<T>)
    ensures a + (b + c) == (a + b) + c
  {
  }

  /** At most three bytes are left over; they are the end of the input, and the bytes before them decode whole. */
  lemma {:induction false} LeftOver(enc: Encoding, s: seq<bv8>)
    ensures var (cps, rest) := Decode(enc, s); var k := |s| - |rest|;
      && |rest| <= 3 && 0 <= k && s[k..] == rest && |cps| <= k
      && Decode(enc, s[..k]) == (cps, [])
  {
    hide Decode1, Decode, Need;
    DecodeOnce(enc, s);
    if s == [] || Need(enc, s) > |s| {
      assert s[..0] == [];
      DecodeOnce(enc, s[..0]);
    } else {
      var n := Need(enc, s);
      LeftOver(enc, s[n..]);
      var k := |s| - |Decode(enc, s).1|;
      assert s[n..][..k - n] == s[..k][n..] && s[n..][k - n..] == s[k..];
      NeedOfPrefix(enc, s, k);
      DecodeOnce(enc, s[..k]);
    }
  }

  lemma NeedOfPrefix(enc: Encoding, s: seq<bv8>, k: nat)
    requires s != [] && Need(enc, s) <= k <= |s|
    ensures Need(enc, s[..k]) == Need(enc, s) && Decode1(enc, s[..k]) == Decode1(enc, s)
  {
  }

  // ----- byte order marks -----

  function Bom(enc: Encoding): (s: seq<bv8>)
    ensures |s| <= 4
  {
    match enc
    case UTF8 => []
    case UTF16BE => [0xFE, 0xFF]
    case UTF16LE => [0xFF, 0xFE]
    case UTF32BE => [0, 0, 0xFE, 0xFF]
    case UTF32LE => [0xFF, 0xFE, 0, 0]
  }

  /** bom_to_encoding of the first four bytes. */
  function BomToEncoding(bom: seq<bv8>): Encoding
    requires |bom| == 4
  {
    if bom[0] == 254 && bom[1] == 255 then UTF16BE
    else if bom[0] == 0 && bom[1] == 0 && bom[2] == 254 && bom[3] == 255 then UTF32BE
    else if bom[0] == 255 && bom[1] == 254 && bom[2] == 0 && bom[3] == 0 then UTF32LE
    else if bom[0] == 255 && bom[1] == 254 then UTF16LE
    else UTF8
  }

  /** A mark is recognised unless UTF-16LE text starts with U+0000, or unmarked text starts like a mark. */
  lemma BomDetected(enc: Encoding, text: seq<bv8>)
    requires |Bom(enc) + text| >= 4
    ensures BomToEncoding((Bom(enc) + text)[..4]) == enc <==>
      !(enc == UTF16LE && text[0] == 0 && text[1] == 0)
      && !(enc == UTF8 && exists e :: e != UTF8 && Bom(e) <= text)
  {
    var s := (Bom(enc) + text)[..4];
    if enc == UTF8 {
      assert s == text[..4];
      assert Bom(UTF16BE) <= text <==> text[0] == 0xFE && text[1] == 0xFF;
      assert Bom(UTF16LE) <= text <==> text[0] == 0xFF && text[1] == 0xFE;
      assert Bom(UTF32BE) <= text <==> text[0] == 0 && text[1] == 0 && text[2] == 0xFE && text[3] == 0xFF;
      assert Bom(UTF32LE) <= text <==> text[0] == 0xFF && text[1] == 0xFE && text[2] == 0 && text[3] == 0;
    }
  }

  /** Well-formed UTF-8 is never taken for another encoding. */
  lemma Utf8Detected(text: seq<bv8>)
    requires WellFormed(UTF8, text) && |text| >= 4
    ensures BomToEncoding(text[..4]) == UTF8
  {
    if text[0] == 0 {
      assert WellFormed(UTF8, text[1..]);
      if text[1..][0] == 0 {
        assert WellFormed(UTF8, text[1..][1..]);
        assert WellFormed1(UTF8, text[1..][1..]);
        assert text[1..][1..][0] == text[2];
      }
    }
  }

  // ----- the whole program -----

  /** The bytes after the mark. */
  function Body(input: seq<bv8>): seq<bv8>
    requires |input| >= 4
  {
    input[|Bom(BomToEncoding(input[..4]))|..]
  }

  /** The bytes recode57 writes, as far as its arrays take it: nothing when there is no input after the first four
      bytes. */
  function Output(to: Encoding, input: seq<bv8>): seq<bv8> {
    if |input| <= 4 then [] else Bom(to) + Convert(BomToEncoding(input[..4]), to, Body(input))
  }

  /** A text with its mark. */
  function File(enc: Encoding, cps: seq<codepoint>): seq<bv8> { Bom(enc) + Encode(enc, cps) }

  predicate StartsWithNul(enc: Encoding, cps: seq<codepoint>) { enc == UTF16LE && cps != [] && cps[0] == 0 }

  lemma NulBytes(cp: codepoint)
    requires Scalar(cp)
    ensures var s := Encode1(UTF16LE, cp); |s| >= 2 && (s[0] == 0 && s[1] == 0 <==> cp == 0)
  {
    hide HighSurrogate, LowSurrogate, JoinPair;
    if cp <= 0xFFFF {
      NulUnit(cp);
    } else {
      HighIsNotZero(cp);
    }
  }

  lemma NulUnit(cp: codepoint)
    requires cp <= 0xFFFF
    ensures Byte0(cp) == 0 && Byte8(cp) == 0 <==> cp == 0
  {
  }

  lemma HighIsNotZero(cp: codepoint)
    ensures PairHigh1(cp) != 0
  {
  }

  /** The mark of a file is recognised exactly when the text is not UTF-16LE that starts with U+0000. */
  lemma MarkRecognised(enc: Encoding, cps: seq<codepoint>)
    requires Scalars(cps) && |File(enc, cps)| >= 4
    ensures BomToEncoding(File(enc, cps)[..4]) == enc <==> !StartsWithNul(enc, cps)
  {
    hide BomToEncoding, Encode1;
    EncodeThenDecode(enc, cps);
    EncodeOnce(enc, cps);
    BomDetected(enc, Encode(enc, cps));
    if enc == UTF8 {
      assert File(enc, cps) == Encode(enc, cps);
      Utf8Detected(Encode(enc, cps));
    } else if enc == UTF16LE {
      NulBytes(cps[0]);
    }
  }

  /** A file becomes the file of the same scalar values in another encoding exactly when it has more than four bytes
      (or nothing was to be written). */
  lemma FileConverted(from: Encoding, to: Encoding, cps: seq<codepoint>)
    requires Scalars(cps) && !StartsWithNul(from, cps)
    ensures Output(to, File(from, cps)) == File(to, cps) <==> |File(from, cps)| > 4 || (to == UTF8 && cps == [])
  {
    hide Encode, Decode, Encode1, BomToEncoding;
    var file := File(from, cps);
    EncodeThenDecode(from, cps);
    EncodeOnce(to, cps);
    if |file| > 4 {
      MarkRecognised(from, cps);
      assert Body(file) == Encode(from, cps);
    }
  }

  /** A file of four bytes, "abcd" in UTF-8, is lost. */
  lemma FourByteFileLost()
    ensures var cps: seq<codepoint> := [0x61, 0x62, 0x63, 0x64];
      && Scalars(cps) && |File(UTF8, cps)| == 4 && BomToEncoding(File(UTF8, cps)[..4]) == UTF8
      && Output(UTF16LE, File(UTF8, cps)) == [] != File(UTF16LE, cps)
  {
    var cps: seq<codepoint> := [0x61, 0x62, 0x63, 0x64];
    var file := File(UTF8, cps);
    assert cps[1..] == [0x62, 0x63, 0x64] && cps[1..][1..] == [0x63, 0x64];
    assert cps[1..][1..][1..] == [0x64] && cps[1..][1..][1..][1..] == [];
    Ascii1(0x61);
    Ascii1(0x62);
    Ascii1(0x63);
    Ascii1(0x64);
    assert Encode(UTF8, cps[1..]) == [0x62] + ([0x63] + ([0x64] + []));
    assert file == [0x61, 0x62, 0x63, 0x64];
  }

  lemma Ascii1(cp: codepoint)
    requires cp < 0x80
    ensures |Encode1(UTF8, cp)| == 1 && Wide(Encode1(UTF8, cp)[0]) == cp
  {
    Bits8x1(cp);
  }

  /** UTF-16LE text that starts with U+0000, followed by "A", is taken for UTF-32LE, and comes out empty. */
  lemma NulTextMistaken()
    ensures var cps: seq<codepoint> := [0, 0x41];
      var file := File(UTF16LE, cps);
      && Scalars(cps) && |file| == 6 && BomToEncoding(file[..4]) == UTF32LE
      && Output(UTF8, file) == [] != File(UTF8, cps)
  {
    var cps: seq<codepoint> := [0, 0x41];
    var file := File(UTF16LE, cps);
    assert cps[1..] == [0x41] && cps[1..][1..] == [];
    assert Encode1(UTF16LE, 0) == [0, 0] && Encode1(UTF16LE, 0x41) == [0x41, 0];
    assert Encode(UTF16LE, cps) == [0, 0] + ([0x41, 0] + []);
    assert file == [0xFF, 0xFE, 0, 0, 0x41, 0];
    assert Body(file) == [0x41, 0];
    DecodeOnce(UTF32LE, Body(file));
  }

  lemma EmptyFile(enc: Encoding)
    ensures |File(enc, [])| <= 4
  {
  }

  /** Converting a file twice gives what converting it once gives exactly when the file in between has more than four
      bytes. */
  lemma FileConvertedTwice(a: Encoding, b: Encoding, c: Encoding, cps: seq<codepoint>)
    requires Scalars(cps) && !StartsWithNul(a, cps) && !StartsWithNul(b, cps) && |File(a, cps)| > 4
    ensures Output(c, Output(b, File(a, cps))) == Output(c, File(a, cps)) <==> |File(b, cps)| > 4
  {
    hide File, Output, StartsWithNul;
    assert cps != [] by { EmptyFile(a); }
    FileConverted(a, b, cps);
    FileConverted(b, c, cps);
    FileConverted(a, c, cps);
  }
}
