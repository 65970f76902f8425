/**
 * The Base64 encoders and the in-place decoder of altermime.
 *
 * The stream encoder pads its last group from a buffer that is neither cleared
 * nor initialised, so bytes that are not input can reach its output.  They are
 * shown never to reach the decoded text.
 */
module AlterBase64 {

  import opened Common
  import opened Base64Alphabet

  /** Longest line that is written before a break is due. */
  const LINE_LIMIT: nat := 76

  // ----- What the encoders write -----

  /** The group for the last one or two bytes; `s1` and `s2` stand where the missing ones would. */
  function LastQuad(data: seq<byte>, s1: byte, s2: byte): seq<byte>
    requires 1 <= |data| <= 2
  {
    if |data| == 2 then Quad(data[0], data[1], s2)[3 := PAD]
    else Quad(data[0], s1, s2)[2 := PAD][3 := PAD]
  }

  /** The text written for `data` when `cc` characters of the current line are already out. */
  function Encoded(data: seq<byte>, s1: byte, s2: byte, cc: nat): seq<byte>
    decreases data, 0
  {
    if data == [] then []
    else if |data| < 3 then LastQuad(data, s1, s2) + [LF]
    else Quad(data[0], data[1], data[2]) + EncodedRest(data[3..], s1, s2, cc + 4)
  }

  function EncodedRest(data: seq<byte>, s1: byte, s2: byte, cc: nat): seq<byte>
    decreases data, 1
  {
    if cc > LINE_LIMIT then [LF] + Encoded(data, s1, s2, 0) else Encoded(data, s1, s2, cc)
  }

  /** What the three-byte buffer holds once `n` full groups have been read into it. */
  function Held(input: seq<byte>, garbage: seq<byte>, n: nat): (s: seq<byte>)
    requires |garbage| == 3 && 3 * n <= |input|
    ensures |s| == 3
  {
    if n == 0 then garbage else input[3 * n - 3..3 * n]
  }

  /** Its contents when the last, partial group is read over them. */
  function Stale(input: seq<byte>, garbage: seq<byte>): (s: seq<byte>)
    requires |garbage| == 3
    ensures |s| == 3
  {
    Held(input, garbage, |input| / 3)
  }

  /**
   * Encodes a stream read three bytes at a time into a buffer that starts out
   * holding `garbage`.
   */
  method EncodeStream(input: seq<byte>, garbage: seq<byte>) returns (out: seq<byte>)
    requires |garbage| == 3
    ensures out == Encoded(input, Stale(input, garbage)[1], Stale(input, garbage)[2], 0)
    ensures Decoded(out) == input
    ensures ShortLines(out)
  {
    ghost var s1, s2 := Stale(input, garbage)[1], Stale(input, garbage)[2];
    out := EncodeGroups(input, garbage, s1, s2);
    RoundTrip(input, s1, s2);
    LinesAreShort(input, s1, s2, 0);
  }

  /** The loop over the groups. */
  method EncodeGroups(input: seq<byte>, garbage: seq<byte>, ghost s1: byte, ghost s2: byte)
    returns (out: seq<byte>)
    requires |garbage| == 3
    requires s1 == Stale(input, garbage)[1] && s2 == Stale(input, garbage)[2]
    ensures out == Encoded(input, s1, s2, 0)
  {
    var inbuf := new byte[3](i requires 0 <= i < 3 => garbage[i]);
    out := [];
    var pos: nat, cc: nat := 0, 0;
    ghost var n: nat := 0;
    while pos < |input|
      invariant pos == 3 * n <= |input| && cc <= LINE_LIMIT
      invariant inbuf[..] == Held(input, garbage, n)
      invariant out + Encoded(input[pos..], s1, s2, cc) == Encoded(input, s1, s2, 0)
    {
      var count;
      count, out, cc := EncodeNext(input, pos, inbuf, out, cc, garbage, n, s1, s2);
      if count < 3 { return; }
      pos, n := pos + 3, n + 1;
    }
    assert input[pos..] == [];
  }

  /** Reads one group and writes it. */
  method EncodeNext(input: seq<byte>, pos: nat, inbuf: array<byte>, out: seq<byte>, cc: nat,
                    ghost garbage: seq<byte>, ghost n: nat, ghost s1: byte, ghost s2: byte)
    returns (count: nat, out': seq<byte>, cc': nat)
    requires |garbage| == 3 && pos == 3 * n < |input|
    requires inbuf.Length == 3 && inbuf[..] == Held(input, garbage, n)
    requires s1 == Stale(input, garbage)[1] && s2 == Stale(input, garbage)[2]
    modifies inbuf
    ensures count == if |input| - pos < 3 then |input| - pos else 3
    ensures count < 3 ==> out' == out + Encoded(input[pos..], s1, s2, cc)
    ensures count == 3 ==>
      && inbuf[..] == Held(input, garbage, n + 1) && cc' <= LINE_LIMIT
      && out' + Encoded(input[pos + 3..], s1, s2, cc') == out + Encoded(input[pos..], s1, s2, cc)
  {
    ghost var rest := input[pos..];
    ghost var held := inbuf[..];
    count := Read(input, pos, inbuf);
    if count < 3 {
      HeldLast(input, garbage, n);
      assert s1 == held[1] && s2 == held[2];
      assert inbuf[..][..count] == rest;
      out' := PutLast(out, inbuf[..], count, rest, s1, s2, cc);
      cc' := cc;
    } else {
      assert inbuf[..] == rest[..3] == input[pos..pos + 3];
      assert rest[3..] == input[pos + 3..];
      out', cc' := PutQuad(out, inbuf[..], cc, rest, s1, s2);
    }
  }

  lemma HeldLast(input: seq<byte>, garbage: seq<byte>, n: nat)
    requires |garbage| == 3 && 3 * n <= |input| < 3 * n + 3
    ensures Stale(input, garbage) == Held(input, garbage, n)
  {
    assert |input| / 3 == n;
  }

  /** Reads up to three bytes into the front of `inbuf` and leaves the rest of it alone. */
  method Read(input: seq<byte>, pos: nat, inbuf: array<byte>) returns (count: nat)
    requires pos < |input| && inbuf.Length == 3
    modifies inbuf
    ensures count == if |input| - pos < 3 then |input| - pos else 3
    ensures forall i :: 0 <= i < 3 ==> inbuf[i] == if i < count then input[pos + i] else old(inbuf[i])
  {
    count := if |input| - pos < 3 then |input| - pos else 3;
    inbuf[0] := input[pos];
    if count > 1 { inbuf[1] := input[pos + 1]; }
    if count > 2 { inbuf[2] := input[pos + 2]; }
  }

  /** Writes a full group and, when the line has become long enough, a break. */
  method PutQuad(out: seq<byte>, inbuf: seq<byte>, cc: nat, ghost data: seq<byte>, ghost s1: byte, ghost s2: byte)
    returns (out': seq<byte>, cc': nat)
    requires |data| >= 3 && inbuf == data[..3]
    ensures cc' <= LINE_LIMIT
    ensures out' + Encoded(data[3..], s1, s2, cc') == out + Encoded(data, s1, s2, cc)
  {
    var outbuf := Quad(inbuf[0], inbuf[1], inbuf[2]);
    out', cc' := out + outbuf, cc + 4;
    ghost var rest := EncodedRest(data[3..], s1, s2, cc + 4);
    assert out' + rest == out + (outbuf + rest);
    if cc' > LINE_LIMIT {
      out', cc' := out' + [LF], 0;
    }
  }

  /** Writes the padded group and the break that ends the text. */
  method PutLast(out: seq<byte>, inbuf: seq<byte>, count: nat,
                 ghost data: seq<byte>, ghost s1: byte, ghost s2: byte, ghost cc: nat)
    returns (out': seq<byte>)
    requires |inbuf| == 3 && 1 <= |data| == count <= 2
    requires inbuf[..count] == data && inbuf[2] == s2 && (count == 1 ==> inbuf[1] == s1)
    ensures out' == out + Encoded(data, s1, s2, cc)
  {
    assert inbuf[0] == data[0] && (count == 2 ==> inbuf[1] == data[1]);
    var outbuf := Quad(inbuf[0], inbuf[1], inbuf[2]);
    if count == 2 { outbuf := outbuf[3 := PAD]; }
    if count == 1 { outbuf := outbuf[2 := PAD][3 := PAD]; }
    out' := out + outbuf;
    out' := out' + [LF];
  }

  /** Encodes a C string; a further line break is written at the end. */
  method EncodeText(buffer: seq<byte>) returns (out: seq<byte>)
    requires 0 in buffer
    ensures out == Encoded(buffer[..Strlen(buffer)], 0, 0, 0) + [LF]
    ensures Decoded(out) == buffer[..Strlen(buffer)]
    ensures ShortLines(out)
  {
    var text := buffer[..Strlen(buffer)];
    ghost var whole := Encoded(text, 0, 0, 0);
    out := [];
    var pos: nat, cc: nat := 0, 0;
    while pos < |text|
      invariant pos <= |text| && cc <= LINE_LIMIT
      invariant out + Encoded(text[pos..], 0, 0, cc) == whole
    {
      ghost var rest := text[pos..];
      var chars := |text| - pos;
      if chars >= 3 {
        out, cc := PutQuad(out, text[pos..pos + 3], cc, rest, 0, 0);
        pos := pos + 3;
        assert rest[3..] == text[pos..];
      } else {
        out := PutShort(out, text[pos..], cc);
        break;
      }
    }
    assert pos == |text| ==> text[pos..] == [];
    assert out == whole;
    out := out + [LF];
    RoundTrip(text, 0, 0);
    LinesAreShort(text, 0, 0, 0);
    ShortLinesBreak(whole, 0);
  }

  /** Writes the padded group, computed without the bytes that are missing. */
  method PutShort(out: seq<byte>, data: seq<byte>, ghost cc: nat) returns (out': seq<byte>)
    requires 1 <= |data| <= 2
    ensures out' == out + Encoded(data, 0, 0, cc)
  {
    var outbuf := [Digit(First(data[0])), Digit(data[0] % 4 * 16), PAD, PAD];
    if |data| == 2 {
      outbuf := [Digit(First(data[0])), Digit(Second(data[0], data[1])), Digit(data[1] % 16 * 4), PAD];
    }
    assert outbuf == LastQuad(data, 0, 0);
    out' := out + outbuf;
    out' := out' + [LF];
  }

  // ----- Line lengths -----

  /** No line of `text` exceeds 80 characters. */
  ghost predicate ShortLines(text: seq<byte>) {
    forall i, j :: 0 <= i <= j <= |text| && LF !in text[i..j] ==> j - i <= 80
  }

  /** As above, `cc` characters into the first line; character by character. */
  ghost predicate ShortFrom(text: seq<byte>, cc: nat) {
    text == [] ||
    if text[0] == LF then ShortFrom(text[1..], 0) else cc < 80 && ShortFrom(text[1..], cc + 1)
  }

  lemma {:induction false} ShortFromRuns(text: seq<byte>, cc: nat, i: nat, j: nat)
    requires ShortFrom(text, cc) && cc <= 80
    requires i <= j <= |text| && LF !in text[i..j]
    ensures j - i <= 80
    ensures i == 0 ==> cc + j <= 80
  {
    if j > 0 {
      var next := if text[0] == LF then 0 else cc + 1;
      if i == 0 {
        assert text[0] in text[i..j];
        assert text[1..][0..j - 1] == text[i..j][1..];
        ShortFromRuns(text[1..], next, 0, j - 1);
      } else {
        assert text[1..][i - 1..j - 1] == text[i..j];
        ShortFromRuns(text[1..], next, i - 1, j - 1);
      }
    }
  }

  lemma ShortRuns(text: seq<byte>)
    requires ShortFrom(text, 0)
    ensures ShortLines(text)
  {
    forall i, j | 0 <= i <= j <= |text| && LF !in text[i..j] ensures j - i <= 80 {
      ShortFromRuns(text, 0, i, j);
    }
  }

  lemma {:induction false} ShortLinesBreak(text: seq<byte>, cc: nat)
    requires ShortFrom(text, cc)
    ensures ShortFrom(text + [LF], cc)
    ensures cc == 0 ==> ShortLines(text + [LF])
  {
    if text != [] {
      assert (text + [LF])[1..] == text[1..] + [LF];
      ShortLinesBreak(text[1..], if text[0] == LF then 0 else cc + 1);
    }
    if cc == 0 { ShortRuns(text + [LF]); }
  }

  lemma ShortQuad(quad: seq<byte>, rest: seq<byte>, cc: nat)
    requires |quad| == 4 && LF !in quad
    requires cc <= LINE_LIMIT && ShortFrom(rest, cc + 4)
    ensures ShortFrom(quad + rest, cc)
  {
    var t := quad + rest;
    assert t[1..][1..][1..][1..] == rest;
    assert t[0] in quad && t[1] in quad && t[2] in quad && t[3] in quad;
    assert ShortFrom(t[1..][1..][1..], cc + 3);
    assert ShortFrom(t[1..][1..], cc + 2);
    assert ShortFrom(t[1..], cc + 1);
  }

  lemma {:induction false} LinesAreShort(data: seq<byte>, s1: byte, s2: byte, cc: nat)
    requires cc <= LINE_LIMIT
    ensures ShortFrom(Encoded(data, s1, s2, cc), cc)
    ensures cc == 0 ==> ShortLines(Encoded(data, s1, s2, cc))
  {
    if 1 <= |data| < 3 {
      assert ShortFrom([LF][1..], 0);
      ShortQuad(LastQuad(data, s1, s2), [LF], cc);
    } else if data != [] {
      var rest := EncodedRest(data[3..], s1, s2, cc + 4);
      if cc + 4 > LINE_LIMIT {
        LinesAreShort(data[3..], s1, s2, 0);
        assert rest[1..] == Encoded(data[3..], s1, s2, 0);
      } else {
        LinesAreShort(data[3..], s1, s2, cc + 4);
      }
      ShortQuad(Quad(data[0], data[1], data[2]), rest, cc);
    }
    if cc == 0 { ShortRuns(Encoded(data, s1, s2, cc)); }
  }

  // ----- What the decoder reads -----

  /** The table admits the alphabet and the pad character, which it reads as zero. */
  predicate Admitted(c: byte) { c == PAD || Value(c).Some? }

  function TableValue(c: byte): sextet {
    if Value(c).Some? then Value(c).value else 0
  }

  /** The characters the decoder does not discard. */
  function Kept(text: seq<byte>): seq<byte> { Filter(Admitted, text) }

  function Pads(k: seq<byte>): nat {
    if k == [] then 0 else (if k[0] == PAD then 1 else 0) + Pads(k[1..])
  }

  function Bytes(input: seq<sextet>): seq<byte>
    requires |input| == 4
  {
    [Byte0(input[0], input[1]), Byte1(input[1], input[2]), Byte2(input[2], input[3])]
  }

  function Values(k: seq<byte>): (v: seq<sextet>)
    ensures |v| == |k|
  {
    seq(|k|, i requires 0 <= i < |k| => TableValue(k[i]))
  }

  /** How many bytes of a group are written once `stops` pad characters have been read in all. */
  function Share(stops: nat): nat { if stops < 3 then 3 - stops else 0 }

  /** Groups of four; pad characters are counted from the start and an incomplete group is dropped. */
  function DecodeKept(k: seq<byte>, stops: nat): seq<byte>
  {
    if |k| < 4 then []
    else
      var s := stops + Pads(k[..4]);
      Bytes(Values(k[..4]))[..Share(s)] + DecodeKept(k[4..], s)
  }

  function Decoded(text: seq<byte>): seq<byte> { DecodeKept(Kept(text), 0) }

  // ----- Round trip -----

  lemma KeptAppend(s: seq<byte>, t: seq<byte>)
    ensures Kept(s + t) == Kept(s) + Kept(t)
  {
    FilterAppend(Admitted, s, t);
  }

  lemma BreakDropped()
    ensures Kept([LF]) == []
  {
    assert !Admitted(LF);
    assert Filter(Admitted, [LF][1..]) == [];
  }

  /** The groups of the encoded text, without its line breaks. */
  function Quads(data: seq<byte>, s1: byte, s2: byte): seq<byte> {
    if data == [] then []
    else if |data| < 3 then LastQuad(data, s1, s2)
    else Quad(data[0], data[1], data[2]) + Quads(data[3..], s1, s2)
  }

  lemma KeptQuad(quad: seq<byte>)
    requires |quad| == 4 && Admitted(quad[0]) && Admitted(quad[1]) && Admitted(quad[2]) && Admitted(quad[3])
    ensures Kept(quad) == quad
  {
    assert Kept(quad[1..][1..][1..][1..]) == [];
    assert Kept(quad[1..][1..][1..]) == [quad[3]];
    assert Kept(quad[1..][1..]) == [quad[2], quad[3]];
    assert Kept(quad[1..]) == [quad[1], quad[2], quad[3]];
  }

  lemma DigitsAdmitted(a: byte, b: byte, c: byte)
    ensures Kept(Quad(a, b, c)) == Quad(a, b, c)
    ensures Kept(Quad(a, b, c)[3 := PAD]) == Quad(a, b, c)[3 := PAD]
    ensures Kept(Quad(a, b, c)[2 := PAD][3 := PAD]) == Quad(a, b, c)[2 := PAD][3 := PAD]
  {
    DigitValue(First(a));
    DigitValue(Second(a, b));
    DigitValue(Third(b, c));
    DigitValue(Fourth(c));
    KeptQuad(Quad(a, b, c));
    KeptQuad(Quad(a, b, c)[3 := PAD]);
    KeptQuad(Quad(a, b, c)[2 := PAD][3 := PAD]);
  }

  lemma {:induction false} KeptEncoded(data: seq<byte>, s1: byte, s2: byte, cc: nat)
    ensures Kept(Encoded(data, s1, s2, cc)) == Quads(data, s1, s2)
  {
    BreakDropped();
    if 1 <= |data| < 3 {
      KeptAppend(LastQuad(data, s1, s2), [LF]);
      DigitsAdmitted(data[0], if |data| == 2 then data[1] else s1, s2);
    } else if data != [] {
      var rest := data[3..];
      KeptAppend(Quad(data[0], data[1], data[2]), EncodedRest(rest, s1, s2, cc + 4));
      DigitsAdmitted(data[0], data[1], data[2]);
      if cc + 4 > LINE_LIMIT {
        KeptAppend([LF], Encoded(rest, s1, s2, 0));
        KeptEncoded(rest, s1, s2, 0);
      } else {
        KeptEncoded(rest, s1, s2, cc + 4);
      }
    }
  }

  lemma PadsOfFour(k: seq<byte>)
    requires |k| == 4
    ensures Pads(k) == (if k[0] == PAD then 1 else 0) + (if k[1] == PAD then 1 else 0)
                     + (if k[2] == PAD then 1 else 0) + (if k[3] == PAD then 1 else 0)
  {
    var p := k[1..];
    var q := p[1..];
    var t := q[1..];
    assert t[1..] == [] && t[0] == k[3] && q[0] == k[2] && p[0] == k[1];
    assert Pads(k) == (if k[0] == PAD then 1 else 0) + Pads(p);
    assert Pads(p) == (if p[0] == PAD then 1 else 0) + Pads(q);
    assert Pads(q) == (if q[0] == PAD then 1 else 0) + Pads(t);
  }

  /** A full group decodes to its three bytes, whatever follows. */
  lemma DecodeQuad(a: byte, b: byte, c: byte, rest: seq<byte>)
    ensures DecodeKept(Quad(a, b, c) + rest, 0) == [a, b, c] + DecodeKept(rest, 0)
  {
    DigitValue(First(a));
    DigitValue(Second(a, b));
    DigitValue(Third(b, c));
    DigitValue(Fourth(c));
    Regrouped(a, b, c);
    var k := Quad(a, b, c) + rest;
    assert k[..4] == Quad(a, b, c) && k[4..] == rest;
    PadsOfFour(k[..4]);
  }

  lemma DecodeTwo(u: sextet, v: sextet, w: sextet)
    ensures DecodeKept([Digit(u), Digit(v), Digit(w), PAD], 0) == [Byte0(u, v), Byte1(v, w)]
  {
    DigitValue(u);
    DigitValue(v);
    DigitValue(w);
    var k := [Digit(u), Digit(v), Digit(w), PAD];
    assert k[..4] == k && k[4..] == [];
    PadsOfFour(k);
    assert Values(k)[0] == u && Values(k)[1] == v && Values(k)[2] == w;
  }

  lemma DecodeOne(u: sextet, v: sextet)
    ensures DecodeKept([Digit(u), Digit(v), PAD, PAD], 0) == [Byte0(u, v)]
  {
    DigitValue(u);
    DigitValue(v);
    var k := [Digit(u), Digit(v), PAD, PAD];
    assert k[..4] == k && k[4..] == [];
    PadsOfFour(k);
    assert Values(k)[0] == u && Values(k)[1] == v;
  }

  /** The padded group decodes to the bytes it was made for: no trace of `s1` or `s2`. */
  lemma DecodeLastQuad(data: seq<byte>, s1: byte, s2: byte)
    requires 1 <= |data| <= 2
    ensures DecodeKept(LastQuad(data, s1, s2), 0) == data
  {
    if |data| == 2 {
      var u, v, w := First(data[0]), Second(data[0], data[1]), Third(data[1], s2);
      DecodeTwo(u, v, w);
      Regrouped(data[0], data[1], s2);
      assert LastQuad(data, s1, s2) == [Digit(u), Digit(v), Digit(w), PAD];
    } else {
      var u, v := First(data[0]), Second(data[0], s1);
      DecodeOne(u, v);
      Regrouped(data[0], s1, s2);
      assert LastQuad(data, s1, s2) == [Digit(u), Digit(v), PAD, PAD];
    }
  }

  lemma {:induction false} DecodeQuads(data: seq<byte>, s1: byte, s2: byte)
    ensures DecodeKept(Quads(data, s1, s2), 0) == data
  {
    if 1 <= |data| < 3 {
      DecodeLastQuad(data, s1, s2);
    } else if data != [] {
      DecodeQuads(data[3..], s1, s2);
      DecodeQuad(data[0], data[1], data[2], Quads(data[3..], s1, s2));
      assert data == [data[0], data[1], data[2]] + data[3..];
    }
  }

  /**
   * Decoding gives back every byte string, whatever the stale bytes were, with
   * or without the further line break.
   */
  lemma RoundTrip(data: seq<byte>, s1: byte, s2: byte)
    ensures Decoded(Encoded(data, s1, s2, 0)) == data
    ensures Decoded(Encoded(data, s1, s2, 0) + [LF]) == data
  {
    var text, quads := Encoded(data, s1, s2, 0), Quads(data, s1, s2);
    KeptEncoded(data, s1, s2, 0);
    KeptAppend(text, [LF]);
    BreakDropped();
    assert quads + [] == quads;
    assert Kept(text + [LF]) == quads;
    DecodeQuads(data, s1, s2);
  }

  /**
   * The stale bytes do show in the encoded text: it is the zero-padded text
   * that the standard asks for exactly when the bits that leak are zero.
   */
  lemma {:induction false} ZeroPadded(data: seq<byte>, s1: byte, s2: byte, cc: nat)
    ensures Encoded(data, s1, s2, cc) == Encoded(data, 0, 0, cc)
       <==> (|data| % 3 == 1 ==> s1 < 16) && (|data| % 3 == 2 ==> s2 < 64)
  {
    if |data| >= 3 {
      var rest := data[3..];
      var quad := Quad(data[0], data[1], data[2]);
      var x, y := EncodedRest(rest, s1, s2, cc + 4), EncodedRest(rest, 0, 0, cc + 4);
      SameTail(quad, x, y);
      if cc + 4 > LINE_LIMIT {
        SameTail([LF], Encoded(rest, s1, s2, 0), Encoded(rest, 0, 0, 0));
        ZeroPadded(rest, s1, s2, 0);
      } else {
        ZeroPadded(rest, s1, s2, cc + 4);
      }
    } else if data != [] {
      SameHead(LastQuad(data, s1, s2), LastQuad(data, 0, 0));
      ZeroPaddedGroup(data, s1, s2);
    }
  }

  lemma ZeroPaddedGroup(data: seq<byte>, s1: byte, s2: byte)
    requires 1 <= |data| <= 2
    ensures LastQuad(data, s1, s2) == LastQuad(data, 0, 0) <==> if |data| == 1 then s1 < 16 else s2 < 64
  {
    if |data| == 1 {
      SecondDiffers(data[0], s1);
      var d, p, q := Digit(First(data[0])), Digit(Second(data[0], s1)), Digit(Second(data[0], 0));
      assert LastQuad(data, s1, s2) == [d, p, PAD, PAD] && LastQuad(data, 0, 0) == [d, q, PAD, PAD];
      FourSame(d, p, PAD, PAD, q, PAD);
    } else {
      ThirdDiffers(data[1], s2);
      var d, e := Digit(First(data[0])), Digit(Second(data[0], data[1]));
      var p, q := Digit(Third(data[1], s2)), Digit(Third(data[1], 0));
      assert LastQuad(data, s1, s2) == [d, e, p, PAD] && LastQuad(data, 0, 0) == [d, e, q, PAD];
      FourSame(d, e, p, PAD, e, q);
    }
  }

  lemma FourSame(a: byte, b: byte, c: byte, d: byte, b': byte, c': byte)
    ensures [a, b, c, d] == [a, b', c', d] <==> b == b' && c == c'
  {
    var x, y := [a, b, c, d], [a, b', c', d];
    assert x[1] == b && y[1] == b' && x[2] == c && y[2] == c';
  }

  lemma SecondDiffers(a: byte, b: byte)
    ensures Digit(Second(a, b)) == Digit(Second(a, 0)) <==> b < 16
  {
    var u, v := Second(a, b), Second(a, 0);
    DigitValue(u);
    DigitValue(v);
    assert u == v + b / 16;
  }

  lemma ThirdDiffers(b: byte, c: byte)
    ensures Digit(Third(b, c)) == Digit(Third(b, 0)) <==> c < 64
  {
    var u, v := Third(b, c), Third(b, 0);
    DigitValue(u);
    DigitValue(v);
    assert u == v + c / 64;
  }

  lemma SameHead(x: seq<byte>, y: seq<byte>)
    ensures x + [LF] == y + [LF] <==> x == y
  {
    var s, t := x + [LF], y + [LF];
    assert s[..|s| - 1] == x && t[..|t| - 1] == y;
  }

  lemma SameTail(s: seq<byte>, x: seq<byte>, y: seq<byte>)
    ensures s + x == s + y <==> x == y
  {
    assert (s + x)[|s|..] == x && (s + y)[|s|..] == y;
  }

  // ----- The decoder, in place -----

  lemma {:induction false} PadsAppend(k: seq<byte>, c: byte)
    ensures Pads(k + [c]) == Pads(k) + if c == PAD then 1 else 0
  {
    if k == [] {
      assert k + [c] == [c];
    } else {
      PadsAppend(k[1..], c);
      assert (k + [c])[1..] == k[1..] + [c];
    }
  }

  /**
   * Reads up to four characters that are not discarded, from `start` on, and
   * stops early only at the terminator.  Returns the values, how many there
   * are, the position reached and the number of pad characters so far.
   */
  method Snatch(buffer: array<byte>, start: nat, length: nat, stops: nat)
    returns (input: seq<sextet>, i: nat, pos: nat, stops': nat, ghost group: seq<byte>)
    requires start <= length < buffer.Length
    requires buffer[length] == 0 && forall j :: start <= j < length ==> buffer[j] != 0
    ensures start + i <= pos <= length && i <= 4 && |input| == 4 && |group| == i
    ensures i < 4 ==> pos == length
    ensures Kept(buffer[start..length]) == group + Kept(buffer[pos..length])
    ensures forall j :: 0 <= j < i ==> input[j] == TableValue(group[j])
    ensures stops' == stops + Pads(group)
  {
    input, i, pos, stops', group := [0, 0, 0, 0], 0, start, stops, [];
    while i < 4
      invariant start + i <= pos <= length && i <= 4 && |input| == 4 && |group| == i
      invariant Kept(buffer[start..length]) == group + Kept(buffer[pos..length])
      invariant forall j :: 0 <= j < i ==> input[j] == TableValue(group[j])
      invariant stops' == stops + Pads(group)
      decreases length - pos
    {
      var c := buffer[pos];
      if c == 0 {
        break;
      }
      ghost var rest := buffer[pos..length];
      assert rest[0] == c && rest[1..] == buffer[pos + 1..length];
      pos := pos + 1;
      if c == PAD { stops' := stops' + 1; }
      if Admitted(c) {
        input := input[i := TableValue(c)];
        PadsAppend(group, c);
        group := group + [c];
        i := i + 1;
      }
    }
  }

  /**
   * Decodes a NUL-terminated text over itself.  The decoded bytes end up at
   * the front with a NUL behind them; the rest of the buffer is as it was, so
   * no character is overwritten before it is read.
   */
  method DecodeBuffer(buffer: array<byte>, length: nat) returns (ghost end: nat)
    requires length < buffer.Length
    requires buffer[length] == 0 && forall j :: 0 <= j < length ==> buffer[j] != 0
    modifies buffer
    ensures end * 4 <= length * 3
    ensures buffer[..end] == old(Decoded(buffer[..length]))
    ensures buffer[end] == 0
    ensures forall j :: end < j < buffer.Length ==> buffer[j] == old(buffer[j])
  {
    var outstring := DecodeGroups(buffer, length);
    buffer[outstring] := 0;
    end := outstring;
    assert buffer[..end] == old(Decoded(buffer[..length]));
  }

  /** The loop over the groups. */
  method DecodeGroups(buffer: array<byte>, length: nat) returns (end: nat)
    requires length < buffer.Length
    requires buffer[length] == 0 && forall j :: 0 <= j < length ==> buffer[j] != 0
    modifies buffer
    ensures end * 4 <= length * 3
    ensures buffer[..end] == old(Decoded(buffer[..length]))
    ensures forall j :: end <= j < buffer.Length ==> buffer[j] == old(buffer[j])
  {
    var stops: nat, pos: nat := 0, 0;
    end := 0;
    ghost var whole := DecodeKept(Kept(buffer[pos..length]), stops);
    assert buffer[pos..length] == buffer[..length];
    while pos < length
      invariant end * 4 <= pos * 3 && pos <= length
      invariant forall j :: end <= j < buffer.Length ==> buffer[j] == old(buffer[j])
      invariant buffer[..end] + DecodeKept(Kept(buffer[pos..length]), stops) == whole
    {
      pos, end, stops := DecodeGroup(buffer, length, pos, end, stops);
    }
    assert buffer[pos..length] == [];
    DropGroup([], stops, stops);
  }

  /** Reads the next group at `pos` and writes what it stands for at `end`. */
  method DecodeGroup(buffer: array<byte>, length: nat, pos: nat, end: nat, stops: nat)
    returns (pos': nat, end': nat, stops': nat)
    requires pos < length < buffer.Length && end * 4 <= pos * 3
    requires buffer[length] == 0 && forall j :: pos <= j < length ==> buffer[j] != 0
    modifies buffer
    ensures pos < pos' <= length && end <= end' && end' * 4 <= pos' * 3
    ensures forall j :: end' <= j < buffer.Length ==> buffer[j] == old(buffer[j])
    ensures buffer[..end'] + DecodeKept(Kept(buffer[pos'..length]), stops')
         == old(buffer[..end] + DecodeKept(Kept(buffer[pos..length]), stops))
  {
    ghost var text := buffer[pos..length];
    var input, i;
    ghost var group;
    input, i, pos', stops', group := Snatch(buffer, pos, length, stops);
    ghost var done, rest := buffer[..end], buffer[pos'..length];
    if i == 4 {
      assert Values(group) == input;
      var output := Bytes(input);
      DecodeStep(done, group, Kept(rest), stops);
      end' := Store(buffer, end, output, Share(stops'));
      assert buffer[pos'..length] == rest;
      assert buffer[..end'] == done + output[..Share(stops')];
    } else {
      assert rest == [];
      DropGroup(group, stops, stops');
      end' := end;
    }
  }

  lemma DecodeStep(done: seq<byte>, group: seq<byte>, rest: seq<byte>, stops: nat)
    requires |group| == 4
    ensures var s := stops + Pads(group);
      done + DecodeKept(group + rest, stops) == done + Bytes(Values(group))[..Share(s)] + DecodeKept(rest, s)
  {
    assert (group + rest)[..4] == group && (group + rest)[4..] == rest;
    var s := stops + Pads(group);
    var piece := Bytes(Values(group))[..Share(s)];
    assert DecodeKept(group + rest, stops) == piece + DecodeKept(rest, s);
  }

  lemma DropGroup(group: seq<byte>, stops: nat, stops': nat)
    requires |group| < 4
    ensures DecodeKept(group + Kept([]), stops) == DecodeKept(Kept([]), stops') == []
  {
    assert group + Kept([]) == group;
  }

  /** Copies the first `count` bytes of a group to position `at`. */
  method Store(buffer: array<byte>, at: nat, output: seq<byte>, count: nat) returns (end: nat)
    requires count <= |output| && at + count <= buffer.Length
    modifies buffer
    ensures end == at + count
    ensures buffer[..end] == old(buffer[..at]) + output[..count]
    ensures forall j :: end <= j < buffer.Length ==> buffer[j] == old(buffer[j])
  {
    end := at;
    for i := 0 to count
      invariant end == at + i
      invariant buffer[..end] == old(buffer[..at]) + output[..i]
      invariant forall j :: end <= j < buffer.Length ==> buffer[j] == old(buffer[j])
    {
      buffer[end] := output[i];
      end := end + 1;
    }
  }

  // ----- Encoder and decoder together -----

  /** The encoded text meets what the decoder asks of its input. */
  lemma {:induction false} EncodedNoNul(data: seq<byte>, s1: byte, s2: byte, cc: nat)
    ensures 0 !in Encoded(data, s1, s2, cc)
  {
    if 1 <= |data| < 3 {
      QuadNoNul(data[0], if |data| == 2 then data[1] else s1, s2);
    } else if data != [] {
      QuadNoNul(data[0], data[1], data[2]);
      EncodedNoNul(data[3..], s1, s2, if cc + 4 > LINE_LIMIT then 0 else cc + 4);
    }
  }

  lemma QuadNoNul(a: byte, b: byte, c: byte)
    ensures forall i :: 0 <= i < 4 ==> Quad(a, b, c)[i] != 0
  {
    DigitValue(First(a));
    DigitValue(Second(a, b));
    DigitValue(Third(b, c));
    DigitValue(Fourth(c));
  }

  /** Encoding a stream and decoding the result over itself leaves the stream at the front. */
  method EncodeThenDecode(data: seq<byte>, garbage: seq<byte>) returns (buffer: array<byte>)
    requires |garbage| == 3
    ensures |data| < buffer.Length
    ensures buffer[..|data|] == data && buffer[|data|] == 0
  {
    var text := EncodeStream(data, garbage);
    EncodedNoNul(data, Stale(data, garbage)[1], Stale(data, garbage)[2], 0);
    buffer := DecodeCopy(text);
  }

  /** The same for a C string. */
  method EncodeTextThenDecode(text: seq<byte>) returns (buffer: array<byte>)
    requires 0 in text
    ensures var n := Strlen(text);
      n < buffer.Length && buffer[..n] == text[..n] && buffer[n] == 0
  {
    var encoded := EncodeText(text);
    EncodedNoNul(text[..Strlen(text)], 0, 0, 0);
    buffer := DecodeCopy(encoded);
  }

  /** Puts a text and its terminator into a buffer and decodes it there. */
  method DecodeCopy(text: seq<byte>) returns (buffer: array<byte>)
    requires 0 !in text
    ensures fresh(buffer) && |Decoded(text)| < buffer.Length
    ensures buffer[..|Decoded(text)|] == Decoded(text) && buffer[|Decoded(text)|] == 0
  {
    buffer := new byte[|text| + 1](i requires 0 <= i <= |text| => if i < |text| then text[i] else 0);
    assert buffer[..|text|] == text;
    ghost var end := DecodeBuffer(buffer, |text|);
    assert |buffer[..end]| == |Decoded(text)|;
  }

  /** The two bytes "ab" read into a buffer that holds 255 in its third place: the text is not the zero-padded one. */
  lemma StaleExample()
    ensures var stale := Stale([97, 98], [0, 0, 255]);
      Encoded([97, 98], stale[1], stale[2], 0) != Encoded([97, 98], 0, 0, 0)
  {
    ZeroPadded([97, 98], 0, 255, 0);
  }
}
