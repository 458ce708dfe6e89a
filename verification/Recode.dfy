/** recode57 with its buffers: code points read from and written into byte arrays, and the conversion loop of main. */
module Recode {
  import opened Options
  import opened Codepoints
  import opened Transcoding

  const INBUF := 1024

  /** The read past `n`: read_codepoint stays within its input, as its interface promises,
      exactly when the input is not UTF-8 that stops inside a sequence. */
  predicate StaysWithin(enc: Encoding, s: seq<bv8>) {
    enc == UTF8 && s != [] ==> Utf8Length(s[0]) <= |s|
  }

  predicate Ascii(s: seq<bv8>) { forall i :: 0 <= i < |s| ==> s[i] < 0x80 }

  lemma NeedOne(enc: Encoding, s: seq<bv8>)
    requires s != []
    ensures Need(enc, s) == 1 <==> enc == UTF8 && s[0] < 0x80
  {
  }

  /** As many code points as bytes: only of ASCII, and only in UTF-8. */
  lemma {:induction false} OnePointPerByte(enc: Encoding, s: seq<bv8>)
    requires s != []
    ensures |Decode(enc, s).0| <= |s|
    ensures |Decode(enc, s).0| == |s| <==> enc == UTF8 && Ascii(s)
  {
    hide Need, Decode, Decode1;
    DecodeOnce(enc, s);
    NeedOne(enc, s);
    if Need(enc, s) <= |s| {
      var t := s[Need(enc, s)..];
      DecodeOnce(enc, t);
      if t != [] {
        OnePointPerByte(enc, t);
      }
      assert Need(enc, s) == 1 ==> s == [s[0]] + t;
    }
  }

  /** orig_to_ucs4 on `s`: no read past its end, and a cell of `destbuf` left for the store of the call that ends it. */
  ghost predicate Converts(enc: Encoding, s: seq<bv8>, cells: nat) {
    (enc == UTF8 ==> Whole(UTF8, s)) && |Decode(enc, s).0| < cells
  }

  /** With a cell for every byte, as its comment asks for, orig_to_ucs4 goes wrong exactly on UTF-8 that is cut inside
      a sequence, and on ASCII that fills the buffer. */
  lemma ConvertsIff(enc: Encoding, s: seq<bv8>, cells: nat)
    requires |s| <= cells && 0 < cells
    ensures Converts(enc, s, cells) <==> enc != UTF8 || (Whole(UTF8, s) && !(|s| == cells && Ascii(s)))
  {
    hide Decode, Ascii;
    if s != [] {
      OnePointPerByte(enc, s);
    } else {
      DecodeOnce(enc, s);
    }
  }

  /** `bytes` consumed of `s` and the code point `cp` are what read_codepoint makes of `s`; it runs past the end exactly
      when `s` is UTF-8 that stops inside its first sequence. */
  ghost predicate ReadsAs(enc: Encoding, s: seq<bv8>, bytes: nat, cp: codepoint) {
    && (bytes <= |s| <==> StaysWithin(enc, s))
    && (bytes <= |s| ==> bytes == if s != [] && Need(enc, s) <= |s| then Need(enc, s) else 0)
    && (0 < bytes <= |s| ==> s != [] && Need(enc, s) <= |s| && cp == Decode1(enc, s))
    && (bytes == 0 ==> cp == 0)
  }

  method ReadUtf32(enc: Encoding, buf: array<bv8>, at: nat, n: nat) returns (bytes: nat, codepoint: codepoint)
    requires at + n <= buf.Length && (enc == UTF32LE || enc == UTF32BE)
    ensures ReadsAs(enc, buf[at..at + n], bytes, codepoint)
  {
    hide Join32;
    bytes, codepoint := 0, 0;
    if n >= 4 {
      if enc == UTF32BE {
        codepoint := Join32(buf[at], buf[at + 1], buf[at + 2], buf[at + 3]);
      } else {
        codepoint := Join32(buf[at + 3], buf[at + 2], buf[at + 1], buf[at]);
      }
      bytes := 4;
    }
  }

  method ReadUtf16(enc: Encoding, buf: array<bv8>, at: nat, n: nat) returns (bytes: nat, codepoint: codepoint)
    requires at + n <= buf.Length && (enc == UTF16LE || enc == UTF16BE)
    ensures ReadsAs(enc, buf[at..at + n], bytes, codepoint)
  {
    hide Join16, JoinPair, HighSurrogate;
    bytes, codepoint := 0, 0;
    if n >= 2 {
      if enc == UTF16BE {
        if !HighSurrogate(buf[at]) {
          codepoint := Join16(buf[at], buf[at + 1]);
          bytes := 2;
        } else if n >= 4 {
          codepoint := JoinPair(buf[at], buf[at + 1], buf[at + 2], buf[at + 3]);
          bytes := 4;
        }
      } else {
        if !HighSurrogate(buf[at + 1]) {
          codepoint := Join16(buf[at + 1], buf[at]);
          bytes := 2;
        } else if n >= 4 {
          codepoint := JoinPair(buf[at + 1], buf[at], buf[at + 3], buf[at + 2]);
          bytes := 4;
        }
      }
    }
  }

  method ReadUtf8(buf: array<bv8>, at: nat, n: nat) returns (bytes: nat, codepoint: codepoint)
    requires at + n <= buf.Length && (n > 0 ==> at + Utf8Length(buf[at]) <= buf.Length)
    ensures ReadsAs(UTF8, buf[at..at + n], bytes, codepoint)
  {
    hide Join2, Join3, Join4, Wide;
    bytes, codepoint := 0, 0;
    if n > 0 {
      if buf[at] < 0x80 {
        codepoint := Wide(buf[at]);
        bytes := 1;
      } else if buf[at] < 0xE0 {
        codepoint := Join2(buf[at], buf[at + 1]);
        bytes := 2;
      } else if buf[at] < 0xF0 {
        codepoint := Join3(buf[at], buf[at + 1], buf[at + 2]);
        bytes := 3;
      } else {
        codepoint := Join4(buf[at], buf[at + 1], buf[at + 2], buf[at + 3]);
        bytes := 4;
      }
    }
  }

  /** Decodes one code point of the `n` bytes at `at` into dest[d]; returns the number of bytes consumed. */
  method ReadCodepoint(enc: Encoding, buf: array<bv8>, at: nat, n: nat, dest: array<codepoint>, d: nat)
    returns (bytes: nat)
    requires at + n <= buf.Length && d < dest.Length
    requires enc == UTF8 && n > 0 ==> at + Utf8Length(buf[at]) <= buf.Length
    modifies dest
    ensures forall k :: 0 <= k < dest.Length && k != d ==> dest[k] == old(dest[k])
    ensures bytes <= n <==> StaysWithin(enc, buf[at..at + n])
    ensures bytes <= n ==> var s := buf[at..at + n];
      && bytes == (if s != [] && Need(enc, s) <= n then Need(enc, s) else 0)
      && (bytes > 0 ==> dest[d] == Decode1(enc, s))
    ensures bytes == 0 ==> dest[d] == 0
  {
    hide Decode1, Need, StaysWithin;
    var codepoint;
    if enc == UTF32LE || enc == UTF32BE {
      bytes, codepoint := ReadUtf32(enc, buf, at, n);
    } else if enc == UTF16LE || enc == UTF16BE {
      bytes, codepoint := ReadUtf16(enc, buf, at, n);
    } else {
      bytes, codepoint := ReadUtf8(buf, at, n);
    }
    dest[d] := codepoint;
  }

  method Put2(out: array<bv8>, at: nat, a: bv8, b: bv8)
    requires at + 2 <= out.Length
    modifies out
    ensures out[..at + 2] == old(out[..at]) + [a, b] && out[at + 2..] == old(out[at + 2..])
  {
    out[at], out[at + 1] := a, b;
  }

  method Put3(out: array<bv8>, at: nat, a: bv8, b: bv8, c: bv8)
    requires at + 3 <= out.Length
    modifies out
    ensures out[..at + 3] == old(out[..at]) + [a, b, c] && out[at + 3..] == old(out[at + 3..])
  {
    out[at], out[at + 1], out[at + 2] := a, b, c;
  }

  method Put4(out: array<bv8>, at: nat, a: bv8, b: bv8, c: bv8, d: bv8)
    requires at + 4 <= out.Length
    modifies out
    ensures out[..at + 4] == old(out[..at]) + [a, b, c, d] && out[at + 4..] == old(out[at + 4..])
  {
    out[at], out[at + 1], out[at + 2], out[at + 3] := a, b, c, d;
  }

  /** Writes one code point at out[at..]; returns the number of bytes written. */
  method WriteCodepoint(enc: Encoding, cp: codepoint, out: array<bv8>, at: nat) returns (bytes: nat)
    requires at + 4 <= out.Length
    modifies out
    ensures bytes == |Encode1(enc, cp)|
    ensures out[..at + bytes] == old(out[..at]) + Encode1(enc, cp) && out[at + bytes..] == old(out[at + bytes..])
  {
    hide Byte0, Byte8, Byte16, Byte24, Lead2, Lead3, Lead4, Cont0, Cont6, Cont12, PairHigh1, PairHigh2, PairLow1,
      PairLow2;
    if enc == UTF32LE || enc == UTF32BE {
      if enc == UTF32LE {
        Put4(out, at, Byte0(cp), Byte8(cp), Byte16(cp), Byte24(cp));
      } else {
        Put4(out, at, Byte24(cp), Byte16(cp), Byte8(cp), Byte0(cp));
      }
      bytes := 4;
    } else if enc == UTF16LE || enc == UTF16BE {
      if cp <= 0xFFFF {
        if enc == UTF16LE {
          Put2(out, at, Byte0(cp), Byte8(cp));
        } else {
          Put2(out, at, Byte8(cp), Byte0(cp));
        }
        bytes := 2;
      } else {
        if enc == UTF16LE {
          Put4(out, at, PairLow1(cp), PairHigh1(cp), PairLow2(cp), PairHigh2(cp));
        } else {
          Put4(out, at, PairHigh1(cp), PairLow1(cp), PairHigh2(cp), PairLow2(cp));
        }
        bytes := 4;
      }
    } else {
      if cp < 0x80 {
        out[at] := Byte0(cp);
        bytes := 1;
      } else if cp < 0x800 {
        Put2(out, at, Lead2(cp), Cont0(cp));
        bytes := 2;
      } else if cp < 0x10000 {
        Put3(out, at, Lead3(cp), Cont6(cp), Cont0(cp));
        bytes := 3;
      } else {
        Put4(out, at, Lead4(cp), Cont12(cp), Cont6(cp), Cont0(cp));
        bytes := 4;
      }
    }
  }

  method WriteBom(enc: Encoding, buf: array<bv8>) returns (bytes: nat)
    requires buf.Length >= 4
    modifies buf
    ensures bytes == |Bom(enc)| && buf[..bytes] == Bom(enc)
  {
    bytes := 0;
    if enc == UTF16BE {
      buf[0], buf[1] := 0xFE, 0xFF;
      bytes := 2;
    } else if enc == UTF32BE {
      buf[0], buf[1], buf[2], buf[3] := 0, 0, 0xFE, 0xFF;
      bytes := 4;
    } else if enc == UTF32LE {
      buf[0], buf[1], buf[2], buf[3] := 0xFF, 0xFE, 0, 0;
      bytes := 4;
    } else if enc == UTF16LE {
      buf[0], buf[1] := 0xFF, 0xFE;
      bytes := 2;
    }
  }

  /** Decodes the first `nbytes` bytes of `buf`; returns the number of code points and of bytes left over. The last call
      of read_codepoint, which consumes nothing, stores a zero behind the code points. `inside` is false when a call
      would read past the `left` bytes or store past `dest`: what the program does from there is not defined. */
  method OrigToUcs4(enc: Encoding, buf: array<bv8>, nbytes: nat, dest: array<codepoint>)
    returns (inside: bool, n: nat, left: nat)
    requires nbytes <= buf.Length
    modifies dest
    ensures inside <==> Converts(enc, buf[..nbytes], dest.Length)
    ensures inside ==> n < dest.Length && dest[n] == 0 && left <= nbytes
    ensures inside ==> (dest[..n], buf[nbytes - left..nbytes]) == Decode(enc, buf[..nbytes])
  {
    hide Need, Decode1, Decode;
    var at: nat := 0;
    n, left := 0, nbytes;
    ghost var all := buf[..nbytes];
    assert buf[0..nbytes] == all && dest[..0] + Decode(enc, all).0 == Decode(enc, all).0;
    var more := true;
    while more
      invariant at + left == nbytes && n <= dest.Length
      invariant Decode(enc, all) == (dest[..n] + Decode(enc, buf[at..nbytes]).0, Decode(enc, buf[at..nbytes]).1)
      invariant !more ==> Decode(enc, buf[at..nbytes]) == ([], buf[at..nbytes]) && StaysWithin(enc, buf[at..nbytes])
      invariant !more ==> n < dest.Length && dest[n] == 0 && (enc == UTF8 ==> left == 0)
      decreases left, more
    {
      ghost var s, cps := buf[at..nbytes], dest[..n];
      DecodeOnce(enc, s);
      NeedUtf8(enc, s);
      if n == dest.Length || !StaysWithin(enc, buf[at..nbytes]) {
        return false, n, left;
      }
      var b := ReadCodepoint(enc, buf, at, left, dest, n);
      assert dest[..n] == cps;
      if b > 0 {
        assert dest[..n + 1] == cps + [dest[n]];
        assert s[b..] == buf[at + b..nbytes];
        Snoc(cps, dest[n], Decode(enc, s[b..]).0);
        n, at, left := n + 1, at + b, left - b;
      } else {
        more := false;
      }
    }
    assert Decode(enc, all).0 == dest[..n] + [] == dest[..n];
    inside := true;
  }

  lemma NeedUtf8(enc: Encoding, s: seq<bv8>)
    ensures enc == UTF8 && s != [] ==> (StaysWithin(enc, s) <==> Need(enc, s) <= |s|)
  {
  }

  lemma Snoc<T>(a: seq<T>, x: T, b: seq<T>)
    ensures a + ([x] + b) == (a + [x]) + b
  {
  }

  /** Encodes the first `npoints` code points of `input` at out[off..]; returns the number of bytes. */
  method Ucs4ToDest(enc: Encoding, input: array<codepoint>, npoints: nat, out: array<bv8>, off: nat) returns (b: nat)
    requires npoints <= input.Length && off + 4 * npoints <= out.Length
    modifies out
    ensures off + b <= out.Length && out[..off + b] == old(out[..off]) + Encode(enc, input[..npoints])
  {
    hide Encode1, Encode;
    EncodeNone(enc);
    assert input[..0] == [];
    b := 0;
    for i := 0 to npoints
      invariant b <= 4 * i && out[..off + b] == old(out[..off]) + Encode(enc, input[..i])
    {
      var k := WriteCodepoint(enc, input[i], out, off + b);
      assert input[..i + 1] == input[..i] + [input[i]];
      EncodeSnoc(enc, input[..i], input[i]);
      Associate(old(out[..off]), Encode(enc, input[..i]), Encode1(enc, input[i]));
      b := b + k;
    }
  }

  lemma EncodeNone(enc: Encoding)
    ensures Encode(enc, []) == []
  {
  }

  lemma EncodeSnoc(enc: Encoding, x: seq<codepoint>, cp: codepoint)
    ensures Encode(enc, x + [cp]) == Encode(enc, x) + Encode1(enc, cp)
  {
    hide Encode, Encode1;
    EncodeAppend(enc, x, [cp]);
    EncodeOnce(enc, [cp]);
    EncodeNone(enc);
    assert [cp][1..] == [] && Encode1(enc, cp) + [] == Encode1(enc, cp);
  }

  /** `read` into the buffer at `at`. */
  method Fill(buf: array<bv8>, at: nat, bytes: seq<bv8>)
    requires at + |bytes| <= buf.Length
    modifies buf
    ensures buf[..at + |bytes|] == old(buf[..at]) + bytes
  {
    forall k | 0 <= k < |bytes| { buf[at + k] := bytes[k]; }
  }

  /** The memcpy of `n` bytes from `from` to the front of the buffer. `overlaps` tells whether the two places share
      a byte, the one at `from`, which memcpy does not allow for; the bytes end up as memmove leaves them. */
  method Slide(buf: array<bv8>, from: nat, n: nat) returns (overlaps: bool)
    requires from + n <= buf.Length
    modifies buf
    ensures buf[..n] == old(buf[from..from + n])
    ensures overlaps <==> from < n
  {
    forall k | 0 <= k < n { buf[k] := buf[from + k]; }
    overlaps := from < n;
  }

  /** The leftover bytes of `x` and the front of the buffer, where they go, share bytes. */
  predicate Overlaps(enc: Encoding, x: seq<bv8>) { |x| < 2 * |Decode(enc, x).1| }

  /** They do when not one code point was complete, or when five bytes of UTF-16 are one code unit and three bytes
      of a surrogate pair. */
  lemma OverlapsIff(enc: Encoding, x: seq<bv8>)
    requires enc != UTF8
    ensures Overlaps(enc, x) <==>
      x != [] && (Need(enc, x) > |x| || (|x| == 5 && Need(enc, x) == 2 && Need(enc, x[2..]) == 4))
  {
    hide Decode, Decode1, Need;
    DecodeOnce(enc, x);
    if x != [] && Need(enc, x) <= |x| {
      NeedTwo(enc, x);
      var y := x[Need(enc, x)..];
      DecodeOnce(enc, y);
      if y != [] {
        NeedTwo(enc, y);
        if Need(enc, y) <= |y| {
          LeftOver(enc, y[Need(enc, y)..]);
        }
      }
    }
  }

  lemma NeedTwo(enc: Encoding, x: seq<bv8>)
    requires enc != UTF8 && x != []
    ensures Need(enc, x) == 2 || Need(enc, x) == 4
  {
  }

  /** The body of the conversion loop, behind the read: converts the first `inBytes` bytes of `inbuf`, `chunk` is what
      it writes, and moves the `left` bytes left over to the front. */
  method ConvertPiece(from: Encoding, to: Encoding, inbuf: array<bv8>, inBytes: nat, ucs4: array<codepoint>,
                      outbuf: array<bv8>, bomBytes: nat)
    returns (inside: bool, chunk: seq<bv8>, left: nat, overlaps: bool)
    requires inBytes <= inbuf.Length && bomBytes + 4 * ucs4.Length <= outbuf.Length && inbuf != outbuf
    modifies inbuf, ucs4, outbuf
    ensures inside <==> Converts(from, old(inbuf[..inBytes]), ucs4.Length)
    ensures inside ==> var (cps, rest) := Decode(from, old(inbuf[..inBytes]));
      && chunk == old(outbuf[..bomBytes]) + Encode(to, cps)
      && left == |rest| <= inBytes && inbuf[..left] == rest && (overlaps <==> Overlaps(from, old(inbuf[..inBytes])))
  {
    hide Encode, Decode, Converts;
    ghost var x := inbuf[..inBytes];
    var npoints;
    chunk, overlaps := [], false;
    inside, npoints, left := OrigToUcs4(from, inbuf, inBytes, ucs4);
    if inside {
      ghost var rest := inbuf[inBytes - left..inBytes];
      assert (ucs4[..npoints], rest) == Decode(from, x);
      var outBytes := Ucs4ToDest(to, ucs4, npoints, outbuf, bomBytes);
      chunk := outbuf[..bomBytes + outBytes];
      if left > 0 {
        assert inBytes - left + left == inBytes;
        overlaps := Slide(inbuf, inBytes - left, left);
      }
      assert inbuf[..left] == rest;
    }
  }

  // ----- one iteration of the conversion loop, on values -----

  /** Converting the bytes up to `e` of a text whose first `done` bytes are converted. */
  lemma Iteration(enc: Encoding, body: seq<bv8>, done: nat, e: nat, cps: seq<codepoint>)
    requires done <= e <= |body| && Decode(enc, body[..done]) == (cps, [])
    ensures var (more, left) := Decode(enc, body[done..e]); var k := e - |left|;
      && |left| <= 3 && done <= k && body[k..e] == left && Decode(enc, left) == ([], left)
      && Decode(enc, body[..k]) == (cps + more, []) && Decode(enc, body[..e]).1 == left
  {
    hide Decode;
    var x := body[done..e];
    var (more, left) := Decode(enc, x);
    LeftOver(enc, x);
    var k := |x| - |left|;
    DecodeAppend(enc, x[..k], left);
    assert x == x[..k] + left;
    DecodeAppend(enc, body[..done], x[..k]);
    assert body[..done] + x[..k] == body[..done + k];
    NothingAppended(more, Decode(enc, left).0);
    DecodeAppend(enc, body[..done], x);
    assert body[..done] + x == body[..e];
  }

  lemma NothingAppended<T>(a: seq<T>, b: seq<T>)
    requires a == a + b
    ensures b == []
  {
    assert |a| == |a| + |b|;
  }

  /** Where the bytes begin that are carried over when `pos` bytes are read: behind the mark at first, then at the
      bytes left over. */
  function Start(enc: Encoding, input: seq<bv8>, pos: nat): (d: nat)
    requires 4 <= pos <= |input|
    ensures |Bom(enc)| <= d <= pos <= d + 4
  {
    if pos == 4 then |Bom(enc)|
    else
      LeftOver(enc, input[|Bom(enc)|..pos]);
      pos - |Decode(enc, input[|Bom(enc)|..pos]).1|
  }

  lemma StartIs(enc: Encoding, input: seq<bv8>, pos: nat)
    requires 4 < pos <= |input|
    ensures |Bom(enc)| <= pos && Start(enc, input, pos) == pos - |Decode(enc, input[|Bom(enc)|..pos]).1|
  {
  }

  /** What one iteration converts: the bytes carried over, and those read from `p` up to `q`. */
  function Piece(enc: Encoding, input: seq<bv8>, p: nat, q: nat): seq<bv8>
    requires 4 <= p <= q <= |input|
  {
    input[Start(enc, input, p)..q]
  }

  /** Between two reads: `pos` bytes are read, the body up to `done` is converted to `cps`, the bytes since then are
      pending, and the output with the mark still to be written is the mark and the encoding of `cps`. */
  ghost predicate Progress(from: Encoding, to: Encoding, input: seq<bv8>, pos: nat, pending: seq<bv8>,
                           mark: seq<bv8>, output: seq<bv8>, done: nat, cps: seq<codepoint>)
  {
    && 4 <= pos <= |input| && |pending| <= 4 && |mark| <= 4
    && done == Start(from, input, pos) && done + |pending| == pos && input[done..pos] == pending
    && Decode(from, input[|Bom(from)|..done]) == (cps, [])
    && output + mark == Bom(to) + Encode(to, cps)
    && (pos == 4 ==> output == [])
    && (pos > 4 ==> mark == [] && Decode(from, pending) == ([], pending))
  }

  /** What main has read and written before its loop. */
  lemma Begin(from: Encoding, to: Encoding, input: seq<bv8>, pending: seq<bv8>)
    requires |input| >= 4 && BomToEncoding(input[..4]) == from && pending == input[|Bom(from)|..4]
    ensures Progress(from, to, input, 4, pending, Bom(to), [], |Bom(from)|, [])
  {
    assert input[|Bom(from)|..|Bom(from)|] == [];
    assert [] + Bom(to) == Bom(to) + Encode(to, []);
  }

  /** Reading a piece, converting what is pending with it, and writing the result. */
  lemma Advance(from: Encoding, to: Encoding, input: seq<bv8>, pos: nat, pending: seq<bv8>,
                mark: seq<bv8>, output: seq<bv8>, done: nat, cps: seq<codepoint>, e: nat)
    requires Progress(from, to, input, pos, pending, mark, output, done, cps)
    requires pos < e <= |input|
    ensures 4 <= pos && Piece(from, input, pos, e) == pending + input[pos..e]
    ensures var (more, left) := Decode(from, Piece(from, input, pos, e));
      |left| <= 3 && |left| <= e && Progress(from, to, input, e, left, [], output + (mark + Encode(to, more)),
        e - |left|, cps + more)
  {
    hide Decode, Encode, Bom, Start;
    StartIs(from, input, e);
    var b := |Bom(from)|;
    var body, x := input[b..], input[done..e];
    var (more, left) := Decode(from, x);
    assert x == pending + input[pos..e];
    Slices(input, b, done, e);
    Iteration(from, body, done - b, e - b, cps);
    Slices(input, b, e - |left|, e);
    Slices(input, b, b, e);
    WrittenSoFar(to, mark, output, cps, more);
  }

  lemma WrittenSoFar(to: Encoding, mark: seq<bv8>, output: seq<bv8>, cps: seq<codepoint>, more: seq<codepoint>)
    requires output + mark == Bom(to) + Encode(to, cps)
    ensures output + (mark + Encode(to, more)) + [] == Bom(to) + Encode(to, cps + more)
  {
    hide Encode, Bom;
    EncodeAppend(to, cps, more);
    assert output + (mark + Encode(to, more)) + [] == (output + mark) + Encode(to, more);
  }

  lemma Slices(input: seq<bv8>, b: nat, d: nat, e: nat)
    requires b <= d <= e <= |input|
    ensures input[b..][..d - b] == input[b..d] && input[b..][d - b..e - b] == input[d..e]
      && input[b..][..e - b] == input[b..e]
  {
  }

  /** When the input is read to its end, the output is complete. */
  lemma Finish(from: Encoding, to: Encoding, input: seq<bv8>, pending: seq<bv8>,
               mark: seq<bv8>, output: seq<bv8>, done: nat, cps: seq<codepoint>)
    requires |input| >= 4 && BomToEncoding(input[..4]) == from
    requires Progress(from, to, input, |input|, pending, mark, output, done, cps)
    ensures output == Output(to, input)
  {
    hide Decode, Encode, Bom;
    if |input| > 4 {
      var b := |Bom(from)|;
      DecodeAppend(from, input[b..done], pending);
      assert input[b..] == input[b..done] + pending;
      assert Decode(from, input[b..]).0 == cps + [] == cps;
      assert output + [] == output;
    }
  }

  // ----- a whole run: the reads, and what goes wrong when -----

  /** Read `i` ends at cuts[i], and what it adds to the bytes carried over fits the buffer. */
  ghost predicate IsCut(enc: Encoding, input: seq<bv8>, cuts: seq<nat>, i: nat)
    requires 0 < i < |cuts|
  {
    4 <= cuts[i - 1] < cuts[i] <= |input| && |Piece(enc, input, cuts[i - 1], cuts[i])| <= INBUF
  }

  /** The first read ends behind four bytes, the others wherever the system likes. */
  ghost predicate Cuts(enc: Encoding, input: seq<bv8>, cuts: seq<nat>) {
    cuts != [] && cuts[0] == 4 && |input| >= 4 && forall i :: 0 < i < |cuts| ==> IsCut(enc, input, cuts, i)
  }

  /** What iteration `i` converts. */
  function PieceAt(enc: Encoding, input: seq<bv8>, cuts: seq<nat>, i: nat): seq<bv8> {
    if 0 < i < |cuts| && 4 <= cuts[i - 1] <= cuts[i] <= |input| then Piece(enc, input, cuts[i - 1], cuts[i]) else []
  }

  ghost predicate AllConvert(enc: Encoding, input: seq<bv8>, cuts: seq<nat>) {
    forall i :: 0 < i < |cuts| ==> Converts(enc, PieceAt(enc, input, cuts, i), INBUF)
  }

  ghost predicate SomeOverlap(enc: Encoding, input: seq<bv8>, cuts: seq<nat>) {
    exists i :: 0 < i < |cuts| && Overlaps(enc, PieceAt(enc, input, cuts, i))
  }

  lemma CutsKept(enc: Encoding, input: seq<bv8>, cuts: seq<nat>, q: nat)
    requires Cuts(enc, input, cuts) && 4 <= cuts[|cuts| - 1] < q <= |input|
    requires |Piece(enc, input, cuts[|cuts| - 1], q)| <= INBUF
    ensures Cuts(enc, input, cuts + [q])
    ensures forall i :: 0 < i < |cuts| ==> PieceAt(enc, input, cuts + [q], i) == PieceAt(enc, input, cuts, i)
    ensures PieceAt(enc, input, cuts + [q], |cuts|) == Piece(enc, input, cuts[|cuts| - 1], q)
  {
    hide Piece;
    forall i | 0 < i < |cuts|
      ensures IsCut(enc, input, cuts + [q], i) && PieceAt(enc, input, cuts + [q], i) == PieceAt(enc, input, cuts, i)
    {
      assert IsCut(enc, input, cuts, i);
    }
    assert IsCut(enc, input, cuts + [q], |cuts|);
  }

  /** One more read. */
  lemma CutMore(enc: Encoding, input: seq<bv8>, cuts: seq<nat>, q: nat)
    requires Cuts(enc, input, cuts) && 4 <= cuts[|cuts| - 1] < q <= |input|
    requires |Piece(enc, input, cuts[|cuts| - 1], q)| <= INBUF
    ensures var x, more := Piece(enc, input, cuts[|cuts| - 1], q), cuts + [q];
      && Cuts(enc, input, more) && more[|more| - 1] == q
      && (AllConvert(enc, input, more) <==> AllConvert(enc, input, cuts) && Converts(enc, x, INBUF))
      && (SomeOverlap(enc, input, more) <==> SomeOverlap(enc, input, cuts) || Overlaps(enc, x))
  {
    hide Converts, Overlaps, Piece, PieceAt, IsCut;
    var more, n := cuts + [q], |cuts|;
    CutsKept(enc, input, cuts, q);
    assert AllConvert(enc, input, more) ==> Converts(enc, PieceAt(enc, input, more, n), INBUF);
    forall i | 0 < i < n ensures
      && (Converts(enc, PieceAt(enc, input, more, i), INBUF) <==> Converts(enc, PieceAt(enc, input, cuts, i), INBUF))
      && (Overlaps(enc, PieceAt(enc, input, more, i)) <==> Overlaps(enc, PieceAt(enc, input, cuts, i)))
    {
    }
  }

  lemma FirstCut(enc: Encoding, input: seq<bv8>)
    requires |input| >= 4
    ensures Cuts(enc, input, [4]) && AllConvert(enc, input, [4]) && !SomeOverlap(enc, input, [4])
  {
  }

  /** Only UTF-8 goes wrong. */
  lemma WideAlwaysConverts(enc: Encoding, input: seq<bv8>, cuts: seq<nat>)
    requires enc != UTF8 && Cuts(enc, input, cuts)
    ensures AllConvert(enc, input, cuts)
  {
    hide Converts;
    forall i | 0 < i < |cuts| ensures Converts(enc, PieceAt(enc, input, cuts, i), INBUF) {
      assert IsCut(enc, input, cuts, i);
      ConvertsIff(enc, PieceAt(enc, input, cuts, i), INBUF);
    }
  }

  /** The bytes of the first read that are not the mark go to the front of the buffer. */
  method KeepText(from: Encoding, input: seq<bv8>, inbuf: array<bv8>) returns (prevBytes: nat)
    requires |input| >= 4 && inbuf.Length >= 4
    modifies inbuf
    ensures prevBytes <= 4 && inbuf[..prevBytes] == input[|Bom(from)|..4]
  {
    prevBytes := 0;
    if from == UTF8 {
      forall k | 0 <= k < 4 { inbuf[k] := input[k]; }
      prevBytes := 4;
    } else if from == UTF16BE || from == UTF16LE {
      forall k | 0 <= k < 2 { inbuf[k] := input[2 + k]; }
      prevBytes := 2;
    }
  }

  /** What the program takes for its input when the first read returned `first` bytes: `bom` is used whole, with the
      bytes of `stale`, which it held before, behind them. */
  function Seen(input: seq<bv8>, stale: seq<bv8>, first: nat): (seen: seq<bv8>)
    requires |stale| == 4 && first <= 4 && first <= |input|
    ensures |seen| >= 4 && (first == 4 ==> seen == input)
  {
    input[..first] + stale[first..] + input[first..]
  }

  /** The program. `read` returns any nonempty piece that fits the buffer, until the input is used up: `first` bytes
      into `bom`, which held `stale`, then pieces that end at `cuts`. There is an output when no iteration read or
      stored outside its arrays, and it does not depend on the cuts; it is that of the input when the first read
      returned all it could. */
  method Recode57(to: Encoding, input: seq<bv8>, stale: seq<bv8>)
    returns (output: Option<seq<bv8>>, first: nat, cuts: seq<nat>, overlapped: bool)
    requires |stale| == 4
    ensures first <= 4 && first <= |input| && (first == 0 ==> input == [])
    ensures var seen := Seen(input, stale, first);
      var from := BomToEncoding(seen[..4]);
      && Cuts(from, seen, cuts)
      && (output.Some? <==> AllConvert(from, seen, cuts))
      && (output.Some? ==> cuts[|cuts| - 1] == |seen| && output.value == Output(to, seen))
      && (output.Some? ==> (overlapped <==> SomeOverlap(from, seen, cuts)))
      && (from != UTF8 ==> output.Some?)
    ensures output.Some? && (first == 4 || first == |input|) ==> output.value == Output(to, input)
  {
    if input == [] {
      first := 0;
    } else {
      first :| 0 < first <= 4 && first <= |input|;
    }
    var seen := Seen(input, stale, first);
    output, cuts, overlapped := Run(to, seen);
    assert first == |input| ==> |seen| == 4;
  }

  /** What main does when `bom` holds the first four bytes of `input`. */
  method Run(to: Encoding, input: seq<bv8>) returns (output: Option<seq<bv8>>, cuts: seq<nat>, overlapped: bool)
    requires |input| >= 4
    ensures var from := BomToEncoding(input[..4]);
      && Cuts(from, input, cuts)
      && (output.Some? <==> AllConvert(from, input, cuts))
      && (output.Some? ==> cuts[|cuts| - 1] == |input| && output.value == Output(to, input))
      && (output.Some? ==> (overlapped <==> SomeOverlap(from, input, cuts)))
      && (from != UTF8 ==> output.Some?)
  {
    hide Encode, Decode, Output, Progress, BomToEncoding, Cuts, AllConvert, SomeOverlap, Converts, Overlaps, Start,
      Piece, Bom;
    var from := BomToEncoding(input[..4]);
    var inbuf, outbuf, ucs4 := new bv8[INBUF], new bv8[INBUF * 4 + 4], new codepoint[INBUF];
    var prevBytes: nat := KeepText(from, input, inbuf);
    var bomBytes: nat := WriteBom(to, outbuf);
    var written: seq<bv8> := [];
    var pos := 4;                     // bytes of the input read so far
    cuts, overlapped := [4], false;
    ghost var done: nat, cps := |Bom(from)|, [];
    Begin(from, to, input, inbuf[..prevBytes]);
    FirstCut(from, input);
    while pos < |input|
      invariant 4 <= pos <= |input| && prevBytes <= 4 && bomBytes <= 4 && cuts != [] && cuts[|cuts| - 1] == pos
      invariant Cuts(from, input, cuts) && AllConvert(from, input, cuts)
      invariant overlapped <==> SomeOverlap(from, input, cuts)
      invariant Progress(from, to, input, pos, inbuf[..prevBytes], outbuf[..bomBytes], written, done, cps)
    {
      ghost var pending, mark := inbuf[..prevBytes], outbuf[..bomBytes];
      var n: nat :| 0 < n <= INBUF - prevBytes && pos + n <= |input|;
      Fill(inbuf, prevBytes, input[pos..pos + n]);
      var inBytes := n + prevBytes;
      Advance(from, to, input, pos, pending, mark, written, done, cps, pos + n);
      CutMore(from, input, cuts, pos + n);
      cuts := cuts + [pos + n];
      ghost var x := Piece(from, input, pos, pos + n);
      assert inbuf[..inBytes] == x;
      var inside, chunk, left, overlaps := ConvertPiece(from, to, inbuf, inBytes, ucs4, outbuf, bomBytes);
      if !inside {
        if from != UTF8 { WideAlwaysConverts(from, input, cuts); }
        return None, cuts, overlapped;
      }
      cps := cps + Decode(from, x).0;
      written := written + chunk;
      overlapped := overlapped || overlaps;
      bomBytes, prevBytes := 0, left;
      assert outbuf[..0] == [];
      pos := pos + n;
      done := pos - left;
    }
    output := Some(written);
    Finish(from, to, input, inbuf[..prevBytes], outbuf[..bomBytes], written, done, cps);
  }
}
