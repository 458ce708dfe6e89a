/** Which runs of recode57 stay inside their arrays, told from the input and from where its reads end. */
module RecodeRuns {
  import opened Codepoints
  import opened Transcoding
  import opened Recode

  // ----- when runs on UTF-8 go wrong, told from the input and the cuts -----

  lemma LeadIsNoTail(t: seq<bv8>)
    requires WellFormed1(UTF8, t)
    ensures !Tail(t[0])
  {
  }

  lemma InsideAreTails(t: seq<bv8>, c: nat)
    requires WellFormed1(UTF8, t) && 0 < c < Need(UTF8, t)
    ensures Tail(t[c])
  {
    assert c == 1 || c == 2 || c == 3;
  }

  lemma PrefixNeeds(t: seq<bv8>, c: nat)
    requires t != [] && 0 < c <= |t|
    ensures Need(UTF8, t[..c]) == Need(UTF8, t)
  {
  }

  /** Well-formed UTF-8 cut at `c` is cut between two code points exactly when no continuation byte follows. */
  lemma {:induction false} CutBetween(t: seq<bv8>, c: nat)
    requires WellFormed(UTF8, t) && c <= |t|
    ensures Whole(UTF8, t[..c]) <==> c == |t| || !Tail(t[c])
  {
    hide Decode, Decode1, Need, WellFormed, WellFormed1, Tail;
    WellFormedOnce(UTF8, t);
    DecodeOnce(UTF8, t[..c]);
    if t == [] {
      assert t[..c] == [];
    } else if c == 0 {
      assert t[..c] == [];
      LeadIsNoTail(t);
    } else {
      var n := Need(UTF8, t);
      WellFormedFits(UTF8, t);
      PrefixNeeds(t, c);
      if c < n {
        InsideAreTails(t, c);
      } else {
        CutBetween(t[n..], c - n);
        assert t[..c][n..] == t[n..][..c - n];
        assert c < |t| ==> t[c] == t[n..][c - n];
      }
    }
  }

  /** What iteration `i` converts when nothing was left over before: all that was read, in the first one with the
      four bytes of the mark. */
  function Added(input: seq<bv8>, cuts: seq<nat>, i: nat): seq<bv8> {
    if 0 < i < |cuts| && cuts[i - 1] <= cuts[i] <= |input| then input[(if i == 1 then 0 else cuts[i - 1])..cuts[i]]
      else []
  }

  /** Read `i` does not end in front of a continuation byte. */
  predicate BetweenPoints(input: seq<bv8>, cuts: seq<nat>, i: nat)
    requires i < |cuts|
  {
    cuts[i] >= |input| || !Tail(input[cuts[i]])
  }

  lemma CutFacts(enc: Encoding, input: seq<bv8>, cuts: seq<nat>, i: nat)
    requires Cuts(enc, input, cuts) && i < |cuts|
    ensures 4 <= cuts[i] <= |input| && (i == 0 <==> cuts[i] == 4)
    ensures i > 0 ==> 4 <= cuts[i - 1] < cuts[i] && |PieceAt(enc, input, cuts, i)| <= INBUF
  {
    if i > 0 {
      assert IsCut(enc, input, cuts, i);
    }
  }

  /** When nothing was left over, the piece is what was read. */
  lemma PieceIsAdded(input: seq<bv8>, cuts: seq<nat>, n: nat)
    requires Cuts(UTF8, input, cuts) && 0 < n < |cuts|
    requires cuts[n - 1] <= |input| && (n > 1 ==> Whole(UTF8, input[..cuts[n - 1]]))
    ensures cuts[n] <= |input| && PieceAt(UTF8, input, cuts, n) == Added(input, cuts, n)
    ensures input[..cuts[n]] == (if n == 1 then [] else input[..cuts[n - 1]]) + Added(input, cuts, n)
  {
    hide Cuts, Decode;
    CutFacts(UTF8, input, cuts, n);
    CutFacts(UTF8, input, cuts, n - 1);
    var p := cuts[n - 1];
    assert input[0..p] == input[..p];
    assert n > 1 ==> Start(UTF8, input, p) == p;
  }

  lemma NothingLeft(enc: Encoding)
    ensures Whole(enc, [])
  {
  }

  lemma Utf8OneRead(input: seq<bv8>, cuts: seq<nat>, n: nat)
    requires WellFormed(UTF8, input) && Cuts(UTF8, input, cuts) && 0 < n < |cuts|
    requires cuts[n - 1] <= |input| && cuts[n] <= |input| && (n > 1 ==> Whole(UTF8, input[..cuts[n - 1]]))
    ensures PieceAt(UTF8, input, cuts, n) == Added(input, cuts, n)
    ensures Whole(UTF8, PieceAt(UTF8, input, cuts, n)) <==> BetweenPoints(input, cuts, n)
    ensures BetweenPoints(input, cuts, n) ==> Whole(UTF8, input[..cuts[n]])
  {
    hide WellFormed, Cuts, Decode, Tail, PieceAt, Added;
    PieceIsAdded(input, cuts, n);
    CutBetween(input, cuts[n]);
    NothingLeft(UTF8);
    DecodeAppend(UTF8, if n == 1 then [] else input[..cuts[n - 1]], Added(input, cuts, n));
  }

  ghost predicate WholeUpTo(input: seq<bv8>, cuts: seq<nat>, n: nat) {
    forall i :: 0 < i <= n ==> Whole(UTF8, PieceAt(UTF8, input, cuts, i))
  }

  ghost predicate BetweenUpTo(input: seq<bv8>, cuts: seq<nat>, n: nat)
    requires n < |cuts|
  {
    forall i :: 0 < i <= n ==> BetweenPoints(input, cuts, i)
  }

  /** orig_to_ucs4 stays within the bytes of each of the first `n` reads exactly when none of them ends in front of a
      continuation byte; then nothing is left over. */
  lemma {:induction false} Utf8ReadsIff(input: seq<bv8>, cuts: seq<nat>, n: nat)
    requires WellFormed(UTF8, input) && Cuts(UTF8, input, cuts) && n < |cuts|
    ensures WholeUpTo(input, cuts, n) <==> BetweenUpTo(input, cuts, n)
    ensures BetweenUpTo(input, cuts, n) ==> cuts[n] <= |input| && (n > 0 ==> Whole(UTF8, input[..cuts[n]]))
    ensures BetweenUpTo(input, cuts, n) ==>
      forall i :: 0 < i <= n ==> PieceAt(UTF8, input, cuts, i) == Added(input, cuts, i)
  {
    hide WellFormed, Cuts, Whole, BetweenPoints, PieceAt, Added;
    CutFacts(UTF8, input, cuts, n);
    if n > 0 {
      CutFacts(UTF8, input, cuts, n - 1);
      Utf8ReadsIff(input, cuts, n - 1);
      if BetweenUpTo(input, cuts, n - 1) {
        Utf8OneRead(input, cuts, n);
      }
    }
  }

  /** No iteration converts a whole buffer of ASCII. */
  ghost predicate NoFullAscii(input: seq<bv8>, cuts: seq<nat>) {
    forall i :: 0 < i < |cuts| ==> !(|Added(input, cuts, i)| == INBUF && Ascii(Added(input, cuts, i)))
  }

  /** A run on well-formed UTF-8 reads and stores inside its arrays exactly when no read ends in front of a continuation
      byte and no iteration converts 1024 bytes of ASCII. */
  lemma Utf8RunIff(input: seq<bv8>, cuts: seq<nat>)
    requires WellFormed(UTF8, input) && Cuts(UTF8, input, cuts)
    ensures BomToEncoding(input[..4]) == UTF8
    ensures AllConvert(UTF8, input, cuts) <==> BetweenUpTo(input, cuts, |cuts| - 1) && NoFullAscii(input, cuts)
  {
    hide WellFormed, Whole, PieceAt, Ascii, BetweenUpTo, Added, IsCut;
    Utf8Detected(input);
    Utf8ReadsIff(input, cuts, |cuts| - 1);
    forall i | 0 < i < |cuts|
      ensures var x := PieceAt(UTF8, input, cuts, i);
        Converts(UTF8, x, INBUF) <==> Whole(UTF8, x) && !(|x| == INBUF && Ascii(x))
    {
      CutFacts(UTF8, input, cuts, i);
      ConvertsIff(UTF8, PieceAt(UTF8, input, cuts, i), INBUF);
    }
  }

  lemma AsciiCons(a: bv8, s: seq<bv8>)
    requires a < 0x80 && WellFormed(UTF8, s)
    ensures WellFormed(UTF8, [a] + s)
  {
    assert ([a] + s)[1..] == s;
  }

  /** Two bytes of UTF-8 (U+00E9) that a read cuts in the middle. */
  lemma CutInsideSequence()
    ensures var input: seq<bv8> := [0x61, 0x62, 0x63, 0x64, 0xC3, 0xA9];
      WellFormed(UTF8, input) && Cuts(UTF8, input, [4, 5]) && !AllConvert(UTF8, input, [4, 5])
  {
    hide WellFormed, Converts, PieceAt, Added;
    var accented: seq<bv8> := [0xC3, 0xA9];
    var input, cuts := [0x61] + ([0x62] + ([0x63] + ([0x64] + accented))), [4, 5];
    AccentWellFormed();
    AsciiCons(0x64, accented);
    AsciiCons(0x63, [0x64] + accented);
    AsciiCons(0x62, [0x63] + ([0x64] + accented));
    AsciiCons(0x61, [0x62] + ([0x63] + ([0x64] + accented)));
    assert input == [0x61, 0x62, 0x63, 0x64, 0xC3, 0xA9];
    assert IsCut(UTF8, input, cuts, 1);
    Utf8RunIff(input, cuts);
    assert !BetweenPoints(input, cuts, 1);
  }

  lemma AccentWellFormed()
    ensures WellFormed(UTF8, [0xC3, 0xA9])
  {
    var s: seq<bv8> := [0xC3, 0xA9];
    assert s[2..] == [];
  }

  lemma {:induction false} AsciiWellFormed(s: seq<bv8>)
    requires Ascii(s)
    ensures WellFormed(UTF8, s)
  {
    if s != [] {
      AsciiWellFormed(s[1..]);
    }
  }

  /** An ASCII file of 1024 bytes or more, read 1024 bytes at a time: the end of the first conversion stores behind
      ucs4. */
  lemma AsciiFileOverruns(input: seq<bv8>)
    requires |input| >= INBUF && Ascii(input)
    ensures WellFormed(UTF8, input) && Cuts(UTF8, input, [4, INBUF]) && !AllConvert(UTF8, input, [4, INBUF])
  {
    hide WellFormed, Ascii, Converts;
    AsciiWellFormed(input);
    var cuts := [4, INBUF];
    assert IsCut(UTF8, input, cuts, 1);
    Utf8RunIff(input, cuts);
    assert Added(input, cuts, 1) == input[..INBUF];
    AsciiPrefix(input, INBUF);
  }

  lemma AsciiPrefix(s: seq<bv8>, n: nat)
    requires Ascii(s) && n <= |s|
    ensures Ascii(s[..n])
  {
  }

  // ----- runs on whole files -----

  /** What `read` returns first when it returns all it can. */
  function FirstRead(file: seq<bv8>): (n: nat)
    ensures n <= 4 && n <= |file|
  {
    if |file| < 4 then |file| else 4
  }

  /** No read of the run goes wrong. */
  ghost predicate GoodReads(enc: Encoding, input: seq<bv8>, cuts: seq<nat>)
    requires cuts != []
  {
    enc == UTF8 ==> BetweenUpTo(input, cuts, |cuts| - 1) && NoFullAscii(input, cuts)
  }

  lemma NoIteration(enc: Encoding, seen: seq<bv8>, cuts: seq<nat>)
    requires |seen| == 4 && Cuts(enc, seen, cuts)
    ensures |cuts| == 1 && AllConvert(enc, seen, cuts) && forall e :: GoodReads(e, seen, cuts)
  {
    hide Converts;
    if |cuts| > 1 {
      CutFacts(enc, seen, cuts, 1);
    }
  }

  lemma GoodReadsIff(enc: Encoding, cps: seq<codepoint>, cuts: seq<nat>)
    requires Scalars(cps) && Cuts(enc, File(enc, cps), cuts)
    ensures AllConvert(enc, File(enc, cps), cuts) <==> GoodReads(enc, File(enc, cps), cuts)
  {
    hide BetweenUpTo, NoFullAscii, AllConvert, WellFormed, Encode;
    if enc == UTF8 {
      EncodeThenDecode(UTF8, cps);
      assert File(UTF8, cps) == Encode(UTF8, cps);
      Utf8RunIff(File(UTF8, cps), cuts);
    } else {
      WideAlwaysConverts(enc, File(enc, cps), cuts);
    }
  }

  /** A run on a file stays inside its arrays and converts it exactly when the file has more than four bytes (or nothing
      was to be written), and, if it is UTF-8, no read ends in front of a continuation byte and no iteration converts
      1024 bytes of ASCII. */
  lemma FileRunIff(from: Encoding, to: Encoding, cps: seq<codepoint>, stale: seq<bv8>, cuts: seq<nat>)
    requires Scalars(cps) && !StartsWithNul(from, cps) && |stale| == 4
    requires var seen := Seen(File(from, cps), stale, FirstRead(File(from, cps)));
      Cuts(BomToEncoding(seen[..4]), seen, cuts)
    ensures var file := File(from, cps);
      var seen := Seen(file, stale, FirstRead(file));
      (AllConvert(BomToEncoding(seen[..4]), seen, cuts) && Output(to, seen) == File(to, cps)) <==>
      ((|file| > 4 || (to == UTF8 && cps == [])) && GoodReads(from, seen, cuts))
  {
    hide AllConvert, GoodReads, File, BomToEncoding, StartsWithNul;
    var file := File(from, cps);
    var seen := Seen(file, stale, FirstRead(file));
    FileConverted(from, to, cps);
    if |file| > 4 {
      MarkRecognised(from, cps);
      GoodReadsIff(from, cps, cuts);
    } else {
      assert |seen| == 4;
      NoIteration(BomToEncoding(seen[..4]), seen, cuts);
    }
  }

  /** The output of one run given to another: both stay inside their arrays and the result is that of a single
      conversion exactly when the file in between has more than four bytes and no read of either run goes wrong. */
  lemma FileRunTwiceIff(a: Encoding, b: Encoding, c: Encoding, cps: seq<codepoint>, stale: seq<bv8>,
                        cuts: seq<nat>, cuts2: seq<nat>)
    requires Scalars(cps) && !StartsWithNul(a, cps) && !StartsWithNul(b, cps) && |stale| == 4
    requires |File(a, cps)| > 4 && Cuts(a, File(a, cps), cuts)
    requires var seen := Seen(File(b, cps), stale, FirstRead(File(b, cps)));
      Cuts(BomToEncoding(seen[..4]), seen, cuts2)
    ensures Output(b, File(a, cps)) == File(b, cps)
    ensures var seen := Seen(File(b, cps), stale, FirstRead(File(b, cps)));
      (&& AllConvert(a, File(a, cps), cuts) && AllConvert(BomToEncoding(seen[..4]), seen, cuts2)
       && Output(c, seen) == Output(c, File(a, cps))) <==>
      (|File(b, cps)| > 4 && GoodReads(a, File(a, cps), cuts) && GoodReads(b, seen, cuts2))
  {
    hide AllConvert, GoodReads, File, BomToEncoding, StartsWithNul, Cuts, Output, Seen;
    assert cps != [] by { EmptyFile(a); }
    FileConverted(a, b, cps);
    FileConverted(a, c, cps);
    GoodReadsIff(a, cps, cuts);
    CutsNonempty(a, File(a, cps), cuts);
    FileRunIff(b, c, cps, stale, cuts2);
  }

  lemma CutsNonempty(enc: Encoding, input: seq<bv8>, cuts: seq<nat>)
    requires Cuts(enc, input, cuts)
    ensures cuts != []
  {
  }

  /** When the first read returns fewer than four bytes although there are more, and the bytes `bom` held make the text
      well-formed UTF-8 all the same, the output is not that of the input. */
  lemma ShortFirstRead(to: Encoding, input: seq<bv8>, stale: seq<bv8>, first: nat)
    requires |stale| == 4 && first < 4 < |input|
    requires WellFormed(UTF8, input) && WellFormed(UTF8, Seen(input, stale, first))
    ensures Output(to, Seen(input, stale, first)) != Output(to, input)
  {
    hide WellFormed, Convert, BomToEncoding;
    var seen := Seen(input, stale, first);
    Utf8Detected(input);
    Utf8Detected(seen);
    ConvertComposes(UTF8, to, UTF8, input);
    ConvertComposes(UTF8, to, UTF8, seen);
    assert |seen| > |input|;
    var x, y := Convert(UTF8, to, input), Convert(UTF8, to, seen);
    assert x != y;
    assert (Bom(to) + x)[|Bom(to)|..] == x && (Bom(to) + y)[|Bom(to)|..] == y;
  }

  // ----- when the copy of the leftover bytes overlaps, told from the input and the cuts -----

  /** The unit at `e` of UTF-16 is the second one of a surrogate pair. */
  predicate LowUnitAt(enc: Encoding, t: seq<bv8>, e: nat) {
    e + 1 < |t| && LowSurrogate(if enc == UTF16BE then t[e] else t[e + 1])
  }

  /** How many bytes of an incomplete code point are in front of a cut at `c`. */
  function LeftBytes(enc: Encoding, t: seq<bv8>, c: nat): nat {
    if enc == UTF32BE || enc == UTF32LE then c % 4 else c % 2 + (if LowUnitAt(enc, t, c - c % 2) then 2 else 0)
  }

  lemma LeftWithin(enc: Encoding, t: seq<bv8>, c: nat)
    requires enc != UTF8 && t != [] && WellFormed1(enc, t) && c < Need(enc, t)
    ensures LeftBytes(enc, t, c) == c
  {
    NotBoth(t[0]);
    if |t| > 1 { NotBoth(t[1]); }
    hide HighSurrogate, LowSurrogate, Join32, Scalar;
    assert c == 0 || c == 1 || c == 2 || c == 3;
  }

  lemma NotBoth(b: bv8)
    ensures !(HighSurrogate(b) && LowSurrogate(b))
  {
  }

  lemma LeftBeyond(enc: Encoding, t: seq<bv8>, n: nat, c: nat)
    requires enc != UTF8 && n <= c <= |t| && n <= |t| && (n == 4 || (n == 2 && (enc == UTF16BE || enc == UTF16LE)))
    ensures LeftBytes(enc, t, c) == LeftBytes(enc, t[n..], c - n)
  {
    hide LowSurrogate;
    assert c % 2 == (c - n) % 2;
    assert n == 4 ==> c % 4 == (c - 4) % 4;
  }

  lemma {:induction false} LeftIs(enc: Encoding, t: seq<bv8>, c: nat)
    requires enc != UTF8 && WellFormed(enc, t) && c <= |t|
    ensures |Decode(enc, t[..c]).1| == LeftBytes(enc, t, c)
  {
    hide Decode, Decode1, WellFormed, WellFormed1, Need, LeftBytes;
    WellFormedOnce(enc, t);
    DecodeOnce(enc, t[..c]);
    if t == [] {
      assert t[..c] == [];
      LeftOfNothing(enc);
    } else {
      var n := Need(enc, t);
      NeedTwo(enc, t);
      WellFormedFits(enc, t);
      if c < n {
        LeftWithin(enc, t, c);
        if c > 0 { NeedsMore(enc, t, c); }
      } else {
        NeedOfPrefix(enc, t, c);
        assert t[..c][n..] == t[n..][..c - n];
        LeftIs(enc, t[n..], c - n);
        if enc == UTF32BE || enc == UTF32LE { NeedFour(enc, t); }
        LeftBeyond(enc, t, n, c);
      }
    }
  }

  lemma LeftOfNothing(enc: Encoding)
    ensures LeftBytes(enc, [], 0) == 0
  {
  }

  lemma NeedFour(enc: Encoding, t: seq<bv8>)
    requires (enc == UTF32BE || enc == UTF32LE) && t != []
    ensures Need(enc, t) == 4
  {
  }

  lemma NeedsMore(enc: Encoding, t: seq<bv8>, c: nat)
    requires enc != UTF8 && t != [] && 0 < c < Need(enc, t) && c <= |t|
    ensures Need(enc, t[..c]) > c
  {
  }

  /** How many bytes are carried over when `pos` bytes are read: the text in `bom` at first. */
  function Carried(enc: Encoding, input: seq<bv8>, pos: nat): int {
    if pos == 4 then 4 - |Bom(enc)|
    else if |Bom(enc)| <= pos && |Bom(enc)| <= |input| then LeftBytes(enc, input[|Bom(enc)|..], pos - |Bom(enc)|)
    else 0
  }

  /** A read from `p` up to `q`, with the bytes carried over, comes to fewer than twice the bytes then left over. */
  predicate SlideOverlaps(enc: Encoding, input: seq<bv8>, p: nat, q: nat) {
    Carried(enc, input, p) + q - p < 2 * Carried(enc, input, q)
  }

  predicate ShortRead(enc: Encoding, input: seq<bv8>, cuts: seq<nat>, i: nat) {
    0 < i < |cuts| && SlideOverlaps(enc, input, cuts[i - 1], cuts[i])
  }

  /** The bytes a piece leaves are those its text, cut there, leaves. */
  lemma PieceLeft(enc: Encoding, input: seq<bv8>, p: nat, q: nat)
    requires 4 <= p < q <= |input|
    ensures |Bom(enc)| <= q && Decode(enc, Piece(enc, input, p, q)).1 == Decode(enc, input[|Bom(enc)|..q]).1
  {
    hide Decode, Bom;
    var b := |Bom(enc)|;
    var s, x := input[b..p], Piece(enc, input, p, q);
    if p > 4 {
      StartIs(enc, input, p);
      LeftOver(enc, s);
      var k := |s| - |Decode(enc, s).1|;
      DecodeAppend(enc, s[..k], x);
      assert s[..k] + x == input[b..q];
    }
  }

  lemma CarriedIs(enc: Encoding, input: seq<bv8>, pos: nat)
    requires enc != UTF8 && 4 <= pos <= |input| && WellFormed(enc, input[|Bom(enc)|..])
    ensures |Bom(enc)| <= pos && Start(enc, input, pos) == pos - Carried(enc, input, pos)
    ensures pos > 4 ==> |Decode(enc, input[|Bom(enc)|..pos]).1| == Carried(enc, input, pos)
  {
    hide Decode, Bom, LeftBytes, WellFormed;
    if pos > 4 {
      var b := |Bom(enc)|;
      StartIs(enc, input, pos);
      LeftIs(enc, input[b..], pos - b);
      assert input[b..][..pos - b] == input[b..pos];
    }
  }

  lemma OneOverlapIff(enc: Encoding, input: seq<bv8>, p: nat, q: nat)
    requires enc != UTF8 && 4 <= p < q <= |input| && WellFormed(enc, input[|Bom(enc)|..])
    ensures Overlaps(enc, Piece(enc, input, p, q)) <==> SlideOverlaps(enc, input, p, q)
  {
    hide Decode, Carried, Start, WellFormed;
    PieceLeft(enc, input, p, q);
    CarriedIs(enc, input, p);
    CarriedIs(enc, input, q);
  }

  /** A run on well-formed UTF-16 or UTF-32 makes an overlapping copy exactly when one of its reads is that short. */
  lemma OverlapRunIff(enc: Encoding, input: seq<bv8>, cuts: seq<nat>)
    requires enc != UTF8 && Cuts(enc, input, cuts) && WellFormed(enc, input[|Bom(enc)|..])
    ensures SomeOverlap(enc, input, cuts) <==> exists i :: ShortRead(enc, input, cuts, i)
  {
    hide WellFormed, Overlaps, SlideOverlaps, Piece, IsCut;
    forall i | 0 < i < |cuts|
      ensures Overlaps(enc, PieceAt(enc, input, cuts, i)) <==> ShortRead(enc, input, cuts, i)
    {
      CutFacts(enc, input, cuts, i);
      OneOverlapIff(enc, input, cuts[i - 1], cuts[i]);
    }
  }

  /** A run on UTF-8 that stays inside its arrays has nothing to copy. */
  lemma Utf8NeverOverlaps(input: seq<bv8>, cuts: seq<nat>)
    requires AllConvert(UTF8, input, cuts)
    ensures !SomeOverlap(UTF8, input, cuts)
  {
    hide Decode;
  }

  /** Runs with overlapping copies: "A" in UTF-32 of which one byte is read alone, and "A" with a pair, of which three
      bytes are read, in UTF-16. */
  lemma OverlappingRuns()
    ensures var input: seq<bv8> := [0xFF, 0xFE, 0, 0, 0x41, 0, 0, 0];
      BomToEncoding(input[..4]) == UTF32LE && Cuts(UTF32LE, input, [4, 5]) && SomeOverlap(UTF32LE, input, [4, 5])
    ensures var input: seq<bv8> := [0xFE, 0xFF, 0, 0x41, 0xD8, 0x3D, 0xDE, 0];
      BomToEncoding(input[..4]) == UTF16BE && Cuts(UTF16BE, input, [4, 7]) && SomeOverlap(UTF16BE, input, [4, 7])
  {
    OverlappingUtf32();
    OverlappingUtf16();
  }

  lemma OverlappingUtf32()
    ensures var input: seq<bv8> := [0xFF, 0xFE, 0, 0, 0x41, 0, 0, 0];
      Cuts(UTF32LE, input, [4, 5]) && SomeOverlap(UTF32LE, input, [4, 5])
  {
    hide Overlaps, Decode;
    var input: seq<bv8> := [0xFF, 0xFE, 0, 0, 0x41, 0, 0, 0];
    var cuts := [4, 5];
    assert IsCut(UTF32LE, input, cuts, 1);
    assert PieceAt(UTF32LE, input, cuts, 1) == [0x41];
    OverlapsIff(UTF32LE, [0x41]);
    assert Overlaps(UTF32LE, PieceAt(UTF32LE, input, cuts, 1));
  }

  lemma OverlappingUtf16()
    ensures var input: seq<bv8> := [0xFE, 0xFF, 0, 0x41, 0xD8, 0x3D, 0xDE, 0];
      Cuts(UTF16BE, input, [4, 7]) && SomeOverlap(UTF16BE, input, [4, 7])
  {
    hide Overlaps, Decode;
    var input: seq<bv8> := [0xFE, 0xFF, 0, 0x41, 0xD8, 0x3D, 0xDE, 0];
    var cuts, x: seq<bv8> := [4, 7], [0, 0x41, 0xD8, 0x3D, 0xDE];
    assert IsCut(UTF16BE, input, cuts, 1);
    assert PieceAt(UTF16BE, input, cuts, 1) == x;
    assert x[2..] == [0xD8, 0x3D, 0xDE];
    OverlapsIff(UTF16BE, x);
    assert Overlaps(UTF16BE, PieceAt(UTF16BE, input, cuts, 1));
  }
}
