/** Quoted-printable text (section 6.7 of RFC 2045): the encoder that overwrites its own soft breaks, the decoder that
    works in place, and what comes back after both. */
module QuotedPrintable {
  import opened Common

  const TAB: byte := 9
  const EQUALS: byte := 61
  const UNDERSCORE: byte := 95
  const CRLF: seq<byte> := [CR, LF]

  function HexDigit(n: nat): (d: byte)
    requires n < 16
  {
    if n < 10 then 48 + n else 55 + n
  }

  /** The value of a hexadecimal digit, 20 for any other byte. */
  function HexValue(b: byte): (n: nat) {
    if 48 <= b <= 57 then b - 48
    else if 65 <= b <= 70 then b - 55
    else if 97 <= b <= 102 then b - 87
    else 20
  }

  /** One byte encoded: printable bytes other than the equals sign stand for themselves. */
  function EncodeByte(b: byte): (r: seq<byte>)
    ensures 1 <= |r| <= 3
  {
    if b < SPACE || b == EQUALS || b > 126 then [EQUALS, HexDigit(b / 16), HexDigit(b % 16)] else [b]
  }

  /** The two digits after the equals sign are hexadecimal and stand for the byte. */
  lemma HexCode(b: byte)
    ensures var h, l := HexDigit(b / 16), HexDigit(b % 16);
            && HexValue(h) != 20 && HexValue(l) != 20 && HexByte(h, l) == b
            && h >= 48 && l >= 48
  {
  }

  /** The per-byte encoder. */
  function EncodeBytes(s: seq<byte>): seq<byte> {
    if s == [] then [] else EncodeBytes(s[..|s| - 1]) + EncodeByte(s[|s| - 1])
  }

  /** Where the line that starts at `i` ends: after the next CRLF that no NUL precedes, or at the end of the input. */
  function LineEnd(s: seq<byte>, i: nat): (e: nat)
    requires i <= |s|
    ensures i <= e <= |s| && (i < |s| ==> i < e)
    decreases |s| - i
  {
    if i == |s| || s[i] == 0 then |s|
    else if i + 1 < |s| && s[i] == CR && s[i + 1] == LF then i + 2
    else LineEnd(s, i + 1)
  }

  /** The lines the encoder goes through; a line that would start with a NUL ends the input. */
  function Lines(s: seq<byte>, i: nat): (ls: seq<seq<byte>>)
    requires i <= |s|
    decreases |s| - i
  {
    var e := LineEnd(s, i);
    [s[i..e]] + if e < |s| && s[e] != 0 then Lines(s, e) else []
  }

  /** Every line encoded byte by byte, with a CRLF after it. */
  function EncodeLines(ls: seq<seq<byte>>): seq<byte> {
    if ls == [] then [] else EncodeBytes(ls[0]) + CRLF + EncodeLines(ls[1..])
  }

  /** Every line as it is, with a CRLF after it. */
  function Spaced(ls: seq<seq<byte>>): seq<byte> {
    if ls == [] then [] else ls[0] + CRLF + Spaced(ls[1..])
  }

  /** Without NULs the lines are the whole input. */
  lemma {:induction false} LinesCover(s: seq<byte>, i: nat)
    requires i <= |s| && 0 !in s
    ensures Flatten(Lines(s, i)) == s[i..]
    decreases |s| - i
  {
    var e := LineEnd(s, i);
    var line := s[i..e];
    if e < |s| {
      LinesCover(s, e);
      assert Lines(s, i)[1..] == Lines(s, e);
      assert line + s[e..] == s[i..];
    } else {
      assert Lines(s, i) == [line] && Flatten(Lines(s, i)[1..]) == [];
      assert line + [] == s[i..];
    }
  }

  /** Prints `text` at `at` the way snprintf does: cut to `remaining - 1` bytes, with a NUL after it. */
  method Print(out: array<byte>, at: nat, remaining: nat, text: seq<byte>)
    requires at + remaining <= out.Length
    modifies out
    ensures |text| < remaining ==> out[..at + |text|] == old(out[..at]) + text && out[at + |text|] == 0
    ensures 0 < remaining <= |text| ==> out[..at + remaining - 1] == old(out[..at]) + text[..remaining - 1]
  {
    if remaining == 0 {
      return;
    }
    var k := if |text| < remaining then |text| else remaining - 1;
    for i := 0 to k
      invariant out[..at + i] == old(out[..at]) + text[..i]
    {
      out[at + i] := text[i];
      assert out[..at + (i + 1)] == out[..at + i] + [text[i]];
      assert text[..i + 1] == text[..i] + [text[i]];
    }
    out[at + k] := 0;
    assert text[..|text|] == text;
  }

  /** Writes a full paragraph with a soft break, of which only the paragraph is passed. */
  method SoftBreak(out: array<byte>, op: nat, outSize: nat, paragraph: seq<byte>)
    requires op + |paragraph| < outSize <= out.Length
    modifies out
    ensures out[..op + |paragraph|] == old(out[..op]) + paragraph
  {
    var text := paragraph + [EQUALS, CR, LF];
    Print(out, op, outSize - op, text);
    ghost var k := if |text| < outSize - op then |text| else outSize - op - 1;
    assert out[..op + k] == old(out[..op]) + text[..k];
    Cut(out[..op + k], old(out[..op]), text[..k], paragraph);
    assert out[..op + k][..op + |paragraph|] == out[..op + |paragraph|];
  }

  lemma Cut(whole: seq<byte>, front: seq<byte>, text: seq<byte>, part: seq<byte>)
    requires whole == front + text && part <= text
    ensures whole[..|front| + |part|] == front + part
  {
  }

  lemma EncodeSnoc(s: seq<byte>, i: nat, p: nat)
    requires i <= p < |s|
    ensures EncodeBytes(s[i..p + 1]) == EncodeBytes(s[i..p]) + EncodeByte(s[p])
  {
    var t := s[i..p + 1];
    assert t[..|t| - 1] == s[i..p] && t[|t| - 1] == s[p];
  }

  lemma {:induction false} EncodePrefix(s: seq<byte>, i: nat, p: nat, e: nat)
    requires i <= p <= e <= |s|
    ensures |EncodeBytes(s[i..p])| <= |EncodeBytes(s[i..e])|
    decreases e - p
  {
    if p < e {
      EncodeSnoc(s, i, p);
      EncodePrefix(s, i, p + 1, e);
    }
  }

  lemma NextByte(s: seq<byte>, from: nat, p: nat, to: nat, front: seq<byte>)
    requires from <= p < to <= |s|
    ensures var enc, next := EncodeBytes(s[from..p]), EncodeBytes(s[from..p + 1]);
      front + enc + EncodeByte(s[p]) == front + next && |enc| + |EncodeByte(s[p])| == |next| <= |EncodeBytes(s[from..to])|
  {
    EncodeSnoc(s, from, p);
    EncodePrefix(s, from, p + 1, to);
    Join(front, EncodeBytes(s[from..p]), EncodeByte(s[p]));
  }

  /** Encodes the line `s[from..to]` at `op`. Encoded bytes are gathered in a paragraph of 100 bytes; a soft break that
      is written after a full paragraph is overwritten by what comes next, because `op` only passes the paragraph. */
  method EncodeLine(s: seq<byte>, from: nat, to: nat, out: array<byte>, outSize: nat, op: nat) returns (op': nat)
    requires from <= to <= |s| && outSize <= out.Length
    requires op + |EncodeBytes(s[from..to])| + 2 < outSize
    modifies out
    ensures op' == op + |EncodeBytes(s[from..to])| + 2
    ensures out[..op'] == old(out[..op]) + EncodeBytes(s[from..to]) + CRLF && out[op'] == 0
  {
    var paragraph := new byte[100](i => 0);
    var pp;
    op', pp := EncodeParagraphs(s, from, to, out, outSize, op, paragraph);
    op' := HardBreak(out, op', outSize, paragraph[..pp]);
  }

  /** The loop over the bytes of a line. What is encoded stands in the output and, behind that, in the paragraph. */
  method EncodeParagraphs(s: seq<byte>, from: nat, to: nat, out: array<byte>, outSize: nat, op: nat, paragraph: array<byte>)
    returns (op': nat, pp: nat)
    requires from <= to <= |s| && outSize <= out.Length && paragraph.Length == 100 && out != paragraph
    requires op + |EncodeBytes(s[from..to])| + 2 < outSize
    modifies out, paragraph
    ensures pp <= 79 && op' + pp == op + |EncodeBytes(s[from..to])|
    ensures out[..op'] + paragraph[..pp] == old(out[..op]) + EncodeBytes(s[from..to])
  {
    op', pp := op, 0;
    var length: int, p := 0, from;
    ghost var front, enc: seq<byte> := out[..op], [];
    assert s[from..p] == [] && front + enc == front;
    assert out[..op'] + paragraph[..pp] == front + enc;
    while p < to
      invariant from <= p <= to && pp <= 79 && (pp == length || pp == length + 1)
      invariant enc == EncodeBytes(s[from..p])
      invariant op' + pp == op + |enc| && op' + pp + 2 < outSize
      invariant out[..op'] + paragraph[..pp] == front + enc
    {
      ghost var text, next := front + enc, EncodeBytes(s[from..p + 1]);
      NextByte(s, from, p, to, front);
      op', pp, length := AddByte(out, outSize, op', paragraph, pp, length, s[p], text);
      assert text + EncodeByte(s[p]) == front + next;
      enc := next;
      p := p + 1;
    }
  }

  /** Adds one encoded byte to the paragraph, after a soft break if it would get too long. */
  method AddByte(out: array<byte>, outSize: nat, op: nat, paragraph: array<byte>, pp: nat, length: int, b: byte,
                 ghost text: seq<byte>)
    returns (op': nat, pp': nat, length': int)
    requires out != paragraph && paragraph.Length == 100 && pp <= 79 && (pp == length || pp == length + 1)
    requires op + pp < outSize <= out.Length && out[..op] + paragraph[..pp] == text
    modifies out, paragraph
    ensures pp' <= 79 && (pp' == length' || pp' == length' + 1) && op' + pp' == op + pp + |EncodeByte(b)| && op' <= op + pp
    ensures out[..op'] + paragraph[..pp'] == text + EncodeByte(b)
  {
    var charout := EncodeByte(b);
    op', pp', length' := op, pp, length;
    if length + |charout| >= 79 {
      SoftBreak(out, op, outSize, paragraph[..pp]);
      op', pp', length' := op + pp, 0, -1;
    }
    ghost var done, para := out[..op'], paragraph[..pp'];
    assert done + para == text;
    Print(paragraph, pp', 100 - pp', charout);
    Join(done, para, charout);
    pp', length' := pp' + |charout|, length' + |charout|;
    assert paragraph[..pp'] == para + charout && out[..op'] == done;
  }

  /** Writes the last paragraph of a line and its CRLF. */
  method HardBreak(out: array<byte>, op: nat, outSize: nat, paragraph: seq<byte>) returns (op': nat)
    requires op + |paragraph| + 2 < outSize <= out.Length
    modifies out
    ensures op' == op + |paragraph| + 2 && out[op'] == 0
    ensures out[..op'] == old(out[..op]) + paragraph + CRLF
  {
    Join(out[..op], paragraph, CRLF);
    Print(out, op, outSize - op, paragraph + CRLF);
    op' := op + |paragraph| + 2;
  }

  /** The encoder. What is left in the output, up to its NUL, is every line encoded byte by byte and a CRLF after it:
      no soft break survives. One byte more than that is all the room it needs. */
  method Encode(s: seq<byte>, out: array<byte>, outSize: nat) returns (op: nat)
    requires |EncodeLines(Lines(s, 0))| < outSize <= out.Length
    modifies out
    ensures op == |EncodeLines(Lines(s, 0))| && out[..op] == EncodeLines(Lines(s, 0)) && out[op] == 0
  {
    var start := 0;
    op := 0;
    ghost var total := EncodeLines(Lines(s, 0));
    assert out[..op] + total == total;
    while true
      invariant start <= |s| && op <= |total| && out[..op] + EncodeLines(Lines(s, start)) == total
      invariant op > 0 ==> start < |s|
      decreases |s| - start
    {
      var end := LineEnd(s, start);
      var more := end < |s| && s[end] != 0;
      ghost var done, line := out[..op], EncodeBytes(s[start..end]);
      ghost var rest := if more then EncodeLines(Lines(s, end)) else [];
      FirstLine(s, start);
      Join(done, line + CRLF, rest);
      Join(done, line, CRLF);
      op := EncodeLine(s, start, end, out, outSize, op);
      if !more {
        return;
      }
      start := end;
    }
  }

  lemma FirstLine(s: seq<byte>, i: nat)
    requires i <= |s|
    ensures var e := LineEnd(s, i);
            EncodeLines(Lines(s, i)) == EncodeBytes(s[i..e]) + CRLF
                                        + (if e < |s| && s[e] != 0 then EncodeLines(Lines(s, e)) else [])
  {
    var e := LineEnd(s, i);
    assert Lines(s, i)[1..] == if e < |s| && s[e] != 0 then Lines(s, e) else [];
  }

  /** Tabs and spaces at the front of `t`. */
  function Blanks(t: seq<byte>): (n: nat)
    ensures n <= |t|
  {
    if t != [] && (t[0] == TAB || t[0] == SPACE) then 1 + Blanks(t[1..]) else 0
  }

  /** Bytes that a soft break takes after the escape: blanks and one or two break bytes; 0 if there is none. */
  function SoftLen(t: seq<byte>): (n: nat)
    ensures n <= |t|
  {
    var w := Blanks(t);
    if w == |t| || !IsBreak(t[w]) then 0
    else if w + 1 < |t| && IsBreak(t[w + 1]) then w + 2 else w + 1
  }

  /** What the escape at the front of `t` with two hexadecimal digits after it stands for. */
  predicate IsHexPair(t: seq<byte>) {
    |t| >= 2 && HexValue(t[0]) != 20 && HexValue(t[1]) != 20
  }

  /** The decoded text. `iso` is the mode for header words, where an underscore stands for a space. */
  function Decode(t: seq<byte>, iso: bool, esc: byte): seq<byte> {
    if t == [] then []
    else if t[0] != esc then [if t[0] == UNDERSCORE && iso then SPACE else t[0]] + Decode(t[1..], iso, esc)
    else if |t| == 1 then []
    else if SoftLen(t[1..]) > 0 then Decode(t[1 + SoftLen(t[1..])..], iso, esc)
    else if IsHexPair(t[1..]) then [HexByte(t[1], t[2])] + Decode(t[3..], iso, esc)
    else [t[0]] + Decode(t[1..], iso, esc)
  }

  function HexByte(h: byte, l: byte): (b: byte)
    requires HexValue(h) != 20 && HexValue(l) != 20
  {
    16 * HexValue(h) + HexValue(l)
  }

  /** The decoder. It reads ahead of what it writes, in the same array. Returns how many bytes it left. */
  method DecodeInPlace(line: array<byte>, slen: nat, iso: bool, esc: byte) returns (op: nat)
    requires slen < line.Length && line[slen] == 0 && 0 !in line[..slen]
    modifies line
    ensures op <= slen && line[..op] == Decode(old(line[..slen]), iso, esc) && line[op] == 0
  {
    ghost var s, total := line[..slen], Decode(line[..slen], iso, esc);
    op := 0;
    var ip := 0;
    assert s[ip..] == s && line[..op] + total == total;
    while ip < slen
      invariant op <= ip <= slen && line[ip..slen] == s[ip..] && line[slen] == 0
      invariant line[..op] + Decode(s[ip..], iso, esc) == total
    {
      var ended;
      ip, op, ended := DecodeNext(line, ip, op, slen, iso, esc, s, total);
      if ended { break; }
    }
    assert line[..op] == total;
    line[op] := 0;
  }

  /** Decodes what stands at `ip` and writes it at `op`. `ended` tells that the text ends in a lone escape. */
  method DecodeNext(line: array<byte>, ip: nat, op: nat, slen: nat, iso: bool, esc: byte, ghost s: seq<byte>, ghost total: seq<byte>)
    returns (ip': nat, op': nat, ended: bool)
    requires op <= ip < slen < line.Length && |s| == slen && line[ip..slen] == s[ip..] && line[slen] == 0
    requires line[..op] + Decode(s[ip..], iso, esc) == total
    modifies line
    ensures op' <= ip' <= slen && line[ip'..slen] == s[ip'..] && line[slen] == 0
    ensures if ended then line[..op'] == total && ip' < slen
            else ip < ip' && line[..op'] + Decode(s[ip'..], iso, esc) == total
  {
    ghost var t := s[ip..];
    var used, c := DecodeOne(line, ip, slen, iso, esc);
    if used == 0 {
      return ip, op, true;
    }
    ip', ended := ip + used, false;
    ghost var rest := s[ip'..];
    assert t[used..] == rest && rest == line[ip'..slen];
    op' := Write(line, op, ip', c, Decode(rest, iso, esc), total);
    assert rest == line[ip'..slen];
  }

  /** Writes a decoded byte, if there is one, in front of what is still to be read. */
  method Write(line: array<byte>, op: nat, ip: nat, c: Option<byte>, ghost next: seq<byte>, ghost total: seq<byte>)
    returns (op': nat)
    requires op < ip <= line.Length && line[..op] + ((if c.Some? then [c.value] else []) + next) == total
    modifies line
    ensures op' <= ip && line[..op'] + next == total && forall i :: ip <= i < line.Length ==> line[i] == old(line[i])
  {
    op' := op;
    ghost var done := line[..op];
    if c.Some? {
      Join(done, [c.value], next);
      line[op] := c.value;
      op' := op + 1;
      assert line[..op'] == done + [c.value];
    } else {
      assert [] + next == next;
    }
  }

  /** Decodes what stands at `ip`: how many bytes it takes and what it gives. Taking nothing means that the text ends in a
      lone escape. */
  method DecodeOne(line: array<byte>, ip: nat, slen: nat, iso: bool, esc: byte) returns (used: nat, c: Option<byte>)
    requires ip < slen < line.Length && line[slen] == 0
    ensures var t := line[ip..slen];
            && used <= |t|
            && (used == 0 ==> Decode(t, iso, esc) == [])
            && (used > 0 ==> Decode(t, iso, esc) == (if c.Some? then [c.value] else []) + Decode(t[used..], iso, esc))
  {
    ghost var t := line[ip..slen];
    var b := line[ip];
    if b != esc {
      return 1, Some(if b == UNDERSCORE && iso then SPACE else b);
    }
    if ip + 1 == slen {
      return 0, None;
    }
    assert line[ip + 1..slen] == t[1..];
    var soft := SoftBreakAfter(line, ip + 1, slen);
    if soft > 0 {
      return 1 + soft, None;
    }
    if HexValue(line[ip + 1]) == 20 || HexValue(line[ip + 2]) == 20 {
      // not a valid pair: the escape stands for itself
      return 1, Some(b);
    }
    return 3, Some(HexByte(line[ip + 1], line[ip + 2]));
  }

  /** Looks for a soft break from `i` on: blanks, then one or two break bytes. Returns its length, or 0. */
  method SoftBreakAfter(line: array<byte>, i: nat, slen: nat) returns (n: nat)
    requires i <= slen < line.Length && line[slen] == 0
    ensures n == SoftLen(line[i..slen])
  {
    var w := i;
    while line[w] == TAB || line[w] == SPACE
      invariant i <= w <= slen && Blanks(line[i..slen]) == w - i + Blanks(line[w..slen])
      decreases slen - w
    {
      assert line[w..slen][1..] == line[w + 1..slen];
      w := w + 1;
    }
    if !IsBreak(line[w]) {
      return 0;
    }
    n := w - i + 1;
    if w + 1 < slen && IsBreak(line[w + 1]) {
      n := n + 1;
    }
  }

  /** Pieces of quoted-printable text: an encoded byte, a soft break with blanks before it, and a hard break. */
  datatype Token = Raw(b: byte) | Soft(blanks: seq<byte>) | Hard

  predicate OkToken(k: Token) {
    k.Soft? ==> forall i :: 0 <= i < |k.blanks| ==> k.blanks[i] == TAB || k.blanks[i] == SPACE
  }

  function Render(k: Token): seq<byte> {
    match k
    case Raw(b) => EncodeByte(b)
    case Soft(blanks) => [EQUALS] + blanks + CRLF
    case Hard => CRLF
  }

  /** What a piece stands for: a soft break for nothing. */
  function Value(k: Token): seq<byte> {
    match k
    case Raw(b) => [b]
    case Soft(_) => []
    case Hard => CRLF
  }

  lemma {:induction false} BlanksLen(blanks: seq<byte>, rest: seq<byte>)
    requires forall i :: 0 <= i < |blanks| ==> blanks[i] == TAB || blanks[i] == SPACE
    requires rest != [] && rest[0] != TAB && rest[0] != SPACE
    ensures Blanks(blanks + rest) == |blanks|
  {
    if blanks == [] {
      assert blanks + rest == rest;
    } else {
      BlanksLen(blanks[1..], rest);
      assert (blanks + rest)[1..] == blanks[1..] + rest;
    }
  }

  /** Every piece decodes to what it stands for, whatever follows it. */
  lemma DecodeToken(k: Token, rest: seq<byte>)
    requires OkToken(k)
    ensures Decode(Render(k) + rest, false, EQUALS) == Value(k) + Decode(rest, false, EQUALS)
  {
    match k
    case Raw(b) => DecodeRaw(b, rest);
    case Soft(blanks) => DecodeSoft(blanks, rest);
    case Hard =>
      DecodePlain(LF, rest);
      DecodePlain(CR, [LF] + rest);
      assert CRLF + rest == [CR] + ([LF] + rest);
      assert [CR] + ([LF] + Decode(rest, false, EQUALS)) == CRLF + Decode(rest, false, EQUALS);
  }

  lemma DecodePlain(b: byte, rest: seq<byte>)
    requires b != EQUALS
    ensures Decode([b] + rest, false, EQUALS) == [b] + Decode(rest, false, EQUALS)
  {
    assert ([b] + rest)[1..] == rest;
  }

  lemma DecodeRaw(b: byte, rest: seq<byte>)
    ensures Decode(EncodeByte(b) + rest, false, EQUALS) == [b] + Decode(rest, false, EQUALS)
  {
    if b < SPACE || b == EQUALS || b > 126 {
      HexCode(b);
      var h, l := HexDigit(b / 16), HexDigit(b % 16);
      var t := [EQUALS, h, l] + rest;
      assert t[1..] == [h, l] + rest && t[3..] == rest;
      assert Blanks(t[1..]) == 0 && SoftLen(t[1..]) == 0;
    } else {
      DecodePlain(b, rest);
    }
  }

  lemma DecodeSoft(blanks: seq<byte>, rest: seq<byte>)
    requires forall i :: 0 <= i < |blanks| ==> blanks[i] == TAB || blanks[i] == SPACE
    ensures Decode([EQUALS] + blanks + CRLF + rest, false, EQUALS) == Decode(rest, false, EQUALS)
  {
    var t := [EQUALS] + blanks + CRLF + rest;
    BlanksLen(blanks, CRLF + rest);
    assert t[1..] == blanks + (CRLF + rest);
    assert SoftLen(t[1..]) == |blanks| + 2;
    assert t[1 + (|blanks| + 2)..] == rest;
  }

  function RenderAll(ks: seq<Token>): seq<byte> {
    if ks == [] then [] else Render(ks[0]) + RenderAll(ks[1..])
  }

  function ValueAll(ks: seq<Token>): seq<byte> {
    if ks == [] then [] else Value(ks[0]) + ValueAll(ks[1..])
  }

  /** Encoded text decodes to what it stands for, and soft breaks may stand anywhere between its pieces. */
  lemma {:induction false} DecodeTokens(ks: seq<Token>)
    requires forall i :: 0 <= i < |ks| ==> OkToken(ks[i])
    ensures Decode(RenderAll(ks), false, EQUALS) == ValueAll(ks)
  {
    if ks != [] {
      DecodeTokens(ks[1..]);
      DecodeToken(ks[0], RenderAll(ks[1..]));
    }
  }

  lemma {:induction false} DecodeBytes(s: seq<byte>, rest: seq<byte>)
    ensures Decode(EncodeBytes(s) + rest, false, EQUALS) == s + Decode(rest, false, EQUALS)
  {
    if s == [] {
      assert EncodeBytes(s) + rest == rest && s + Decode(rest, false, EQUALS) == Decode(rest, false, EQUALS);
    } else {
      var front, b := s[..|s| - 1], s[|s| - 1];
      Join(EncodeBytes(front), EncodeByte(b), rest);
      DecodeBytes(front, EncodeByte(b) + rest);
      DecodeRaw(b, rest);
      Join(front, [b], Decode(rest, false, EQUALS));
      assert front + [b] == s;
    }
  }

  /** Decoding what the encoder wrote gives back every line, with one CRLF more after it. */
  lemma {:induction false} DecodeEncoded(ls: seq<seq<byte>>)
    ensures Decode(EncodeLines(ls), false, EQUALS) == Spaced(ls)
  {
    if ls != [] {
      var rest := EncodeLines(ls[1..]);
      DecodeEncoded(ls[1..]);
      Join(EncodeBytes(ls[0]), CRLF, rest);
      DecodeBytes(ls[0], CRLF + rest);
      DecodeToken(Hard, rest);
      Join(ls[0], CRLF, Spaced(ls[1..]));
    }
  }

  lemma {:induction false} EncodedNoNul(s: seq<byte>)
    ensures 0 !in EncodeBytes(s)
  {
    if s != [] {
      EncodedNoNul(s[..|s| - 1]);
      HexCode(s[|s| - 1]);
      assert 0 !in EncodeByte(s[|s| - 1]);
    }
  }

  lemma {:induction false} EncodedLinesNoNul(ls: seq<seq<byte>>)
    ensures 0 !in EncodeLines(ls)
  {
    if ls != [] {
      EncodedNoNul(ls[0]);
      EncodedLinesNoNul(ls[1..]);
    }
  }

  /** Encodes into a buffer and decodes there: every line comes back, with one CRLF more after it. */
  method RoundTrip(s: seq<byte>, buffer: array<byte>) returns (n: nat)
    requires |EncodeLines(Lines(s, 0))| < buffer.Length
    modifies buffer
    ensures n < buffer.Length && buffer[..n] == Spaced(Lines(s, 0)) && buffer[n] == 0
  {
    var slen := Encode(s, buffer, buffer.Length);
    EncodedLinesNoNul(Lines(s, 0));
    DecodeEncoded(Lines(s, 0));
    n := DecodeInPlace(buffer, slen, false, EQUALS);
  }
}
