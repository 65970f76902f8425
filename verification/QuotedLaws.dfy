/** What quoted-printable text looks like: which bytes the encoder escapes and how, where it takes its lines to end, and what
    the decoder makes of text that no encoder wrote. */
module QuotedLaws {
  import opened Common
  import opened QuotedPrintable

  /** The digits, in order. */
  const DIGITS: seq<byte> := [48, 49, 50, 51, 52, 53, 54, 55, 56, 57, 65, 66, 67, 68, 69, 70]
  const LOWER: seq<byte> := [97, 98, 99, 100, 101, 102]

  /** The byte is the digit for `n`, in upper or lower case. */
  predicate Writes(b: byte, n: nat)
    requires n < 16
  {
    b == DIGITS[n] || (n >= 10 && b == LOWER[n - 10])
  }

  /** The encoder writes upper-case digits; the decoder reads upper and lower case, and nothing else is a digit. */
  lemma HexDigits(n: nat, b: byte)
    requires n < 16
    ensures HexDigit(n) == DIGITS[n] && (HexValue(b) == n <==> Writes(b, n))
    ensures HexValue(b) == 20 <==> b !in DIGITS && b !in LOWER
  {
    assert |DIGITS| == 16 && |LOWER| == 6;
    DigitsOf(b);
  }

  lemma DigitsOf(b: byte)
    ensures b in DIGITS <==> 48 <= b <= 57 || 65 <= b <= 70
    ensures b in LOWER <==> 97 <= b <= 102
  {
    assert DIGITS == [48, 49, 50, 51, 52, 53, 54, 55, 56, 57] + [65, 66, 67, 68, 69, 70];
    if 48 <= b <= 57 { assert DIGITS[b - 48] == b; }
    if 65 <= b <= 70 { assert DIGITS[b - 55] == b; }
    if 97 <= b <= 102 { assert LOWER[b - 97] == b; }
  }

  /** A byte that may stand for itself. */
  predicate Literal(b: byte) { 32 <= b <= 126 && b != 61 }

  /** An escape: an equals sign and two upper-case digits. */
  predicate IsEscape(t: seq<byte>) { |t| == 3 && t[0] == 61 && t[1] in DIGITS && t[2] in DIGITS }

  function CountEscaped(s: seq<byte>): nat {
    if s == [] then 0 else CountEscaped(s[..|s| - 1]) + if Literal(s[|s| - 1]) then 0 else 1
  }

  lemma OneByte(b: byte)
    ensures if Literal(b) then EncodeByte(b) == [b] else IsEscape(EncodeByte(b))
  {
    if !Literal(b) {
      DigitsOf(HexDigit(b / 16));
      DigitsOf(HexDigit(b % 16));
    }
  }

  /** The text is printable, and every equals sign in it begins an escape. */
  ghost predicate Escaped(e: seq<byte>) {
    && (forall i :: 0 <= i < |e| ==> 32 <= e[i] <= 126)
    && (forall i :: 0 <= i < |e| && e[i] == 61 ==> i + 2 < |e| && e[i + 1] in DIGITS && e[i + 2] in DIGITS)
  }

  /** Encoded text is printable, every equals sign in it begins an escape, and it is two bytes longer for every byte that is
      not literal. */
  lemma {:induction false} EncodedText(s: seq<byte>)
    ensures var e := EncodeBytes(s);
      |e| == |s| + 2 * CountEscaped(s) && Escaped(e)
  {
    if s != [] {
      var front, b := s[..|s| - 1], s[|s| - 1];
      EncodedText(front);
      OneByte(b);
      if Literal(b) {
        assert EncodeBytes(s) == EncodeBytes(front) + [b];
      } else {
        AddEscape(EncodeBytes(front), EncodeByte(b));
      }
    }
  }

  lemma AddEscape(d: seq<byte>, c: seq<byte>)
    requires Escaped(d) && IsEscape(c)
    ensures Escaped(d + c)
  {
    DigitsOf(c[1]);
    DigitsOf(c[2]);
    var e := d + c;
    assert e[|d|] == c[0] && e[|d| + 1] == c[1] && e[|d| + 2] == c[2] && e[..|d|] == d;
    forall i | 0 <= i < |e| && e[i] == 61 ensures i + 2 < |e| && e[i + 1] in DIGITS && e[i + 2] in DIGITS {
      if i < |d| {
        assert d[i] == 61 && e[i + 1] == d[i + 1] && e[i + 2] == d[i + 2];
      }
    }
  }

  /** Exactly the text that needs no escape is encoded as itself. */
  lemma {:induction false} EncodedAsItself(s: seq<byte>)
    ensures EncodeBytes(s) == s <==> forall i :: 0 <= i < |s| ==> Literal(s[i])
  {
    EncodedText(s);
    CountNone(s);
    if CountEscaped(s) == 0 {
      LiteralText(s);
    }
  }

  lemma {:induction false} CountNone(s: seq<byte>)
    ensures CountEscaped(s) == 0 <==> forall i :: 0 <= i < |s| ==> Literal(s[i])
  {
    if s != [] {
      var front := s[..|s| - 1];
      CountNone(front);
      assert forall i :: 0 <= i < |front| ==> front[i] == s[i];
    }
  }

  lemma {:induction false} LiteralText(s: seq<byte>)
    requires forall i :: 0 <= i < |s| ==> Literal(s[i])
    ensures EncodeBytes(s) == s
  {
    if s != [] {
      LiteralText(s[..|s| - 1]);
      assert s[..|s| - 1] + [s[|s| - 1]] == s;
    }
  }

  function TotalLength(ls: seq<seq<byte>>): nat { if ls == [] then 0 else |ls[0]| + 2 * CountEscaped(ls[0]) + 2 + TotalLength(ls[1..]) }

  /** A printable byte, or half of a CRLF. */
  predicate TextAt(e: seq<byte>, i: nat)
    requires i < |e|
  {
    || 32 <= e[i] <= 126
    || (e[i] == CR && i + 1 < |e| && e[i + 1] == LF)
    || (e[i] == LF && i > 0 && e[i - 1] == CR)
  }

  /** Printable text and line breaks that are pairs. */
  ghost predicate TextLines(e: seq<byte>) { forall i :: 0 <= i < |e| ==> TextAt(e, i) }

  /** The whole output is printable but for its line breaks, which are pairs. */
  lemma {:induction false} EncodedLinesText(ls: seq<seq<byte>>)
    ensures |EncodeLines(ls)| == TotalLength(ls) && TextLines(EncodeLines(ls))
  {
    if ls != [] {
      EncodedText(ls[0]);
      EncodedLinesText(ls[1..]);
      TextAfter(EncodeBytes(ls[0]), EncodeLines(ls[1..]));
    }
  }

  lemma TextAfter(text: seq<byte>, rest: seq<byte>)
    requires TextLines(rest) && forall i :: 0 <= i < |text| ==> 32 <= text[i] <= 126
    ensures TextLines(text + CRLF + rest)
  {
    var front := text + CRLF;
    forall i | 0 <= i < |front + rest| ensures TextAt(front + rest, i) {
      if i < |text| {
        assert (front + rest)[i] == text[i];
      } else if i >= |front| {
        ShiftText(front, rest, i - |front|);
      } else {
        assert (front + rest)[|text|] == CR && (front + rest)[|text| + 1] == LF;
        assert i == |text| || i == |text| + 1;
      }
    }
  }

  lemma ShiftText(front: seq<byte>, rest: seq<byte>, k: nat)
    requires k < |rest| && TextAt(rest, k)
    ensures TextAt(front + rest, |front| + k)
  {
    var e, n := front + rest, |front|;
    assert e[n + k] == rest[k] && (k + 1 < |rest| ==> e[n + (k + 1)] == rest[k + 1]) && (k > 0 ==> e[n + (k - 1)] == rest[k - 1]);
  }

  // ----- Where the encoder's lines end -----

  /** A line goes up to the first CRLF, and only the last may lack it. */
  ghost predicate CrlfLine(line: seq<byte>, last: bool) {
    && (forall j :: 0 <= j <= |line| - 2 && line[j] == CR && line[j + 1] == LF ==> j == |line| - 2)
    && (!last ==> |line| >= 2 && line[|line| - 2] == CR && line[|line| - 1] == LF)
  }

  lemma {:induction false} LineEndAt(s: seq<byte>, i: nat)
    requires i <= |s| && 0 !in s
    ensures CrlfLine(s[i..LineEnd(s, i)], LineEnd(s, i) == |s|)
    decreases |s| - i
  {
    if i < |s| && !(i + 1 < |s| && s[i] == CR && s[i + 1] == LF) {
      var e := LineEnd(s, i);
      LineEndAt(s, i + 1);
      assert s[i..e] == [s[i]] + s[i + 1..e];
      LongerLine(s[i], s[i + 1..e], e == |s|);
    }
  }

  lemma LongerLine(b: byte, tail: seq<byte>, last: bool)
    requires CrlfLine(tail, last) && !(b == CR && tail != [] && tail[0] == LF)
    ensures CrlfLine([b] + tail, last)
  {
    var line := [b] + tail;
    if !last {
      assert line[|line| - 2] == tail[|tail| - 2] && line[|line| - 1] == tail[|tail| - 1];
    }
    forall j | 0 <= j <= |line| - 2 && line[j] == CR && line[j + 1] == LF ensures j == |line| - 2 {
      assert line[j + 1] == tail[j];
      if j > 0 {
        var k := j - 1;
        assert line[j] == tail[k] && tail[k + 1] == LF;
      }
    }
  }

  ghost predicate AllCrlfLines(ls: seq<seq<byte>>) {
    forall k :: 0 <= k < |ls| ==> CrlfLine(ls[k], k == |ls| - 1)
  }

  lemma FirstCrlfLine(line: seq<byte>, rest: seq<seq<byte>>)
    requires CrlfLine(line, false) && rest != [] && AllCrlfLines(rest)
    ensures AllCrlfLines([line] + rest)
  {
    var ls := [line] + rest;
    forall k | 0 <= k < |ls| ensures CrlfLine(ls[k], k == |ls| - 1) {
      if k > 0 {
        var j := k - 1;
        assert ls[k] == rest[j] && CrlfLine(rest[j], j == |rest| - 1);
      }
    }
  }

  /** The lines of a string are its parts between CRLFs, each with its CRLF. */
  lemma {:induction false} CrlfLines(s: seq<byte>, i: nat)
    requires i <= |s| && 0 !in s
    ensures AllCrlfLines(Lines(s, i))
    decreases |s| - i
  {
    var e := LineEnd(s, i);
    LineEndAt(s, i);
    if e < |s| {
      CrlfLines(s, e);
      FirstCrlfLine(s[i..e], Lines(s, e));
    }
  }

  // ----- Text that no encoder wrote -----

  /** Text without an escape stands for itself, but for the underscores of header words. */
  lemma {:induction false} DecodeLiteral(t: seq<byte>, iso: bool, esc: byte)
    requires esc !in t
    ensures var d := Decode(t, iso, esc);
      |d| == |t| && forall i :: 0 <= i < |t| ==> d[i] == if iso && t[i] == 95 then 32 else t[i]
  {
    if t != [] {
      DecodeLiteral(t[1..], iso, esc);
    }
  }

  /** An escape before two digits, in upper or lower case, stands for one byte. */
  lemma DecodeHex(h: byte, l: byte, m: nat, n: nat, rest: seq<byte>, iso: bool, esc: byte)
    requires m < 16 && n < 16 && Writes(h, m) && Writes(l, n)
    ensures Decode([esc, h, l] + rest, iso, esc) == [16 * m + n] + Decode(rest, iso, esc)
  {
    assert HexValue(h) == m && h >= 48 by { HexDigits(m, h); }
    assert HexValue(l) == n && l >= 48 by { HexDigits(n, l); }
    var t := [esc, h, l] + rest;
    assert t[3..] == rest && SoftLen(t[1..]) == 0 by {
      assert t[1..] == [h, l] + rest && Blanks(t[1..]) == 0;
    }
    assert t[0] == esc && t[1] == h && t[2] == l;
  }

  predicate AllBlank(s: seq<byte>) { forall i :: 0 <= i < |s| ==> s[i] == 9 || s[i] == 32 }

  /** An escape before blanks and one line break, of one byte or two, stands for nothing. */
  lemma DecodeSoftBreak(blanks: seq<byte>, brk: seq<byte>, rest: seq<byte>, iso: bool, esc: byte)
    requires AllBlank(blanks) && 1 <= |brk| <= 2 && forall i :: 0 <= i < |brk| ==> IsBreak(brk[i])
    requires |brk| == 1 && rest != [] ==> !IsBreak(rest[0])
    ensures Decode([esc] + blanks + brk + rest, iso, esc) == Decode(rest, iso, esc)
  {
    var t := [esc] + blanks + brk + rest;
    BlanksLen(blanks, brk + rest);
    assert t[1..] == blanks + (brk + rest);
    assert SoftLen(t[1..]) == |blanks| + |brk|;
    assert t[1 + (|blanks| + |brk|)..] == rest;
  }

  /** An escape before anything else stands for itself, and one at the very end for nothing. */
  lemma DecodeInvalid(blanks: seq<byte>, rest: seq<byte>, iso: bool, esc: byte)
    requires AllBlank(blanks) && blanks + rest != [] && (rest != [] ==> rest[0] != 9 && rest[0] != 32 && !IsBreak(rest[0]))
    requires blanks != [] || |rest| < 2 || rest[0] !in DIGITS + LOWER || rest[1] !in DIGITS + LOWER
    ensures Decode([esc] + (blanks + rest), iso, esc) == [esc] + Decode(blanks + rest, iso, esc)
    ensures Decode([esc], iso, esc) == []
  {
    var t := [esc] + (blanks + rest);
    assert t[1..] == blanks + rest;
    if rest != [] {
      BlanksLen(blanks, rest);
      HexDigits(0, rest[0]);
      if |rest| > 1 { HexDigits(0, rest[1]); }
    } else {
      AllBlanks(blanks);
      assert blanks + rest == blanks;
    }
    if blanks != [] { HexDigits(0, blanks[0]); assert (blanks + rest)[0] == blanks[0]; }
  }

  lemma {:induction false} AllBlanks(blanks: seq<byte>)
    requires AllBlank(blanks)
    ensures Blanks(blanks) == |blanks|
  {
    if blanks != [] { AllBlanks(blanks[1..]); }
  }
}
