/**
 * The Base64 routines of fetchmail: an encoder that respects the size of its
 * output buffer and a decoder for server challenges.
 */
module FetchBase64 {

  import opened Common
  import opened Base64Alphabet

  // ----- Encoding -----

  /** Length of the encoding of `n` bytes, without the terminator. */
  function Len64(n: nat): nat { (n + 2) / 3 * 4 }

  /** The group for the last one or two bytes. */
  function Fragment(data: seq<byte>): seq<byte>
    requires 1 <= |data| <= 2
  {
    if |data| == 1 then [Digit(First(data[0])), Digit(Second(data[0], 0)), PAD, PAD]
    else [Digit(First(data[0])), Digit(Second(data[0], data[1])), Digit(Third(data[1], 0)), PAD]
  }

  function Encoding(data: seq<byte>): seq<byte> {
    if data == [] then []
    else if |data| < 3 then Fragment(data)
    else Quad(data[0], data[1], data[2]) + Encoding(data[3..])
  }

  lemma {:induction false} EncodingLength(data: seq<byte>)
    ensures |Encoding(data)| == Len64(|data|)
  {
    if |data| >= 3 {
      EncodingLength(data[3..]);
      Minus3(|data|);
    }
  }

  /** How many characters fit, in whole groups, with the terminator behind them. */
  function Room(outlen: nat): (n: nat)
    ensures n <= outlen && n % 4 == 0
    ensures outlen > 0 ==> n < outlen <= n + 4
  {
    if outlen == 0 then 0 else (outlen - 1) / 4 * 4
  }

  /**
   * Encodes `data` into the first `outlen` places of `out`.  It succeeds
   * exactly when the whole encoding and its terminator fit, or when there is
   * nothing to encode; it then leaves the encoding, and otherwise as many of
   * its groups as fit.  A terminator follows in either case, and nothing behind
   * it changes.
   */
  method ToBase64(out: array<byte>, data: seq<byte>, outlen: nat) returns (rc: int, ghost end: nat)
    requires 1 <= out.Length && outlen <= out.Length
    modifies out
    ensures rc == if data == [] || outlen >= Len64(|data|) + 1 then 0 else -1
    ensures end == if rc == 0 then Len64(|data|) else Room(outlen)
    ensures end <= |Encoding(data)| && (outlen == 0 || end < outlen)
    ensures out[..end] == Encoding(data)[..end]
    ensures out[end] == 0
    ensures forall j :: end < j < out.Length ==> out[j] == old(out[j])
  {
    EncodingLength(data);
    ghost var whole := Encoding(data);
    var pos, at, room;
    ghost var groups;
    rc, pos, at, room, groups := PutGroups(out, data, outlen);
    ghost var rest := Encoding(data[pos..]);
    if rc == 0 && pos < |data| {
      if room < 5 {
        rc := -1;
      } else {
        ghost var done := out[..at];
        var fragment := Fragment(data[pos..]);
        PutFour(out, at, fragment);
        at := at + 4;
        rest := [];
        assert out[..at] == done + fragment;
      }
    }
    assert out[..at] + rest == whole;
    if rc == -1 { RoomIs(outlen, groups); }
    out[at] := 0;
    end := at;
    assert whole[..end] == out[..end];
  }

  lemma RoomIs(outlen: nat, groups: nat)
    requires 4 * groups <= outlen < 4 * groups + 5 && (groups > 0 ==> 4 * groups < outlen)
    ensures Room(outlen) == 4 * groups
  {
  }

  /** Writes the full groups until one does not fit. */
  method PutGroups(out: array<byte>, data: seq<byte>, outlen: nat) 
    returns (rc: int, pos: nat, at: nat, room: nat, ghost groups: nat)
    requires outlen <= out.Length
    modifies out
    ensures pos <= |data| && at == 4 * groups && at + room == outlen && (at > 0 ==> room >= 1)
    ensures rc == if |data| - pos < 3 then 0 else -1
    ensures rc == -1 ==> room < 5
    ensures out[..at] + Encoding(data[pos..]) == Encoding(data)
    ensures forall j :: at <= j < out.Length ==> out[j] == old(out[j])
  {
    ghost var whole := Encoding(data);
    rc, pos, at, room, groups := 0, 0, 0, outlen, 0;
    ghost var rest := data;
    assert out[..at] + whole == whole;
    while |data| - pos >= 3
      invariant pos <= |data| && at == 4 * groups && at + room == outlen && (at > 0 ==> room >= 1)
      invariant rest == data[pos..] && out[..at] + Encoding(rest) == whole
      invariant forall j :: at <= j < out.Length ==> out[j] == old(out[j])
    {
      if room < 5 {
        rc := -1;
        return;
      }
      assert data[pos..pos + 3] == rest[..3];
      PutQuad(out, at, data[pos..pos + 3], rest);
      rest := rest[3..];
      at, pos, room, groups := at + 4, pos + 3, room - 4, groups + 1;
    }
  }

  /** Encodes the three bytes at the front of `data`. */
  method PutQuad(out: array<byte>, at: nat, three: seq<byte>, ghost data: seq<byte>)
    requires |data| >= 3 && three == data[..3] && at + 4 <= out.Length
    modifies out
    ensures out[..at + 4] + Encoding(data[3..]) == old(out[..at]) + Encoding(data)
    ensures forall j :: at + 4 <= j < out.Length ==> out[j] == old(out[j])
  {
    ghost var done, rest := out[..at], Encoding(data[3..]);
    var quad := Quad(three[0], three[1], three[2]);
    PutFour(out, at, quad);
    assert out[..at + 4] == done + quad;
    assert done + quad + rest == done + (quad + rest);
  }

  /** Writes the four characters of a group. */
  method PutFour(out: array<byte>, at: nat, quad: seq<byte>)
    requires |quad| == 4 && at + 4 <= out.Length
    modifies out
    ensures out[..at + 4] == old(out[..at]) + quad
    ensures forall j :: at + 4 <= j < out.Length ==> out[j] == old(out[j])
  {
    out[at] := quad[0];
    out[at + 1] := quad[1];
    out[at + 2] := quad[2];
    out[at + 3] := quad[3];
  }

  // ----- Decoding -----

  predicate IsDigit(c: byte) { Value(c).Some? }

  predicate IsGroup(s: seq<byte>) {
    |s| >= 4 && IsDigit(s[0]) && IsDigit(s[1]) && (s[2] == PAD || IsDigit(s[2])) && (s[3] == PAD || IsDigit(s[3]))
  }

  /** The bytes a group stands for. */
  function Piece(s: seq<byte>): (p: seq<byte>)
    requires IsGroup(s)
    ensures 1 <= |p| <= 3
  {
    var v0, v1 := Value(s[0]).value, Value(s[1]).value;
    if s[2] == PAD then [Byte0(v0, v1)]
    else
      var v2 := Value(s[2]).value;
      if s[3] == PAD then [Byte0(v0, v1), Byte1(v1, v2)]
      else [Byte0(v0, v1), Byte1(v1, v2), Byte2(v2, Value(s[3]).value)]
  }

  /** Whether the decoder goes on behind the group at the front of `s`. */
  predicate GoesOn(s: seq<byte>)
    requires |s| >= 4
  {
    |s| > 4 && s[4] != CR && s[3] != PAD
  }

  function Prepend(p: seq<byte>, d: Option<seq<byte>>): Option<seq<byte>> {
    if d.None? then None else Some(p + d.value)
  }

  /** What one or more groups stand for; nothing when a character is wrong or missing. */
  function Groups(s: seq<byte>): Option<seq<byte>> {
    if !IsGroup(s) then None
    else if GoesOn(s) then Prepend(Piece(s), Groups(s[4..]))
    else Some(Piece(s))
  }

  /** Without the marker that a server puts before a challenge. */
  function Unmarked(s: seq<byte>): seq<byte> {
    if |s| >= 2 && s[0] == 43 && s[1] == 32 then s[2..] else s
  }

  function Decoding(s: seq<byte>): Option<seq<byte>> {
    var t := Unmarked(s);
    if t != [] && t[0] == CR then Some([]) else Groups(t)
  }

  /** What the decoder returns for a text that stands for `d` when `maxlen` bytes are allowed. */
  function Answer(d: Option<seq<byte>>, maxlen: nat): int {
    if d.None? || (maxlen > 0 && |d.value| > maxlen) then -1 else |d.value|
  }

  /**
   * Decodes the C string `str` into `out`.  A `maxlen` of zero sets no limit.
   * The bytes are written whenever the answer is not -1, and never more than
   * `maxlen` of them.
   */
  method FromBase64(out: array<byte>, str: seq<byte>, maxlen: nat) returns (len: int)
    requires 0 in str
    requires maxlen <= out.Length && (maxlen == 0 ==> out.Length * 4 >= Strlen(str) * 3)
    modifies out
    ensures len == Answer(Decoding(str[..Strlen(str)]), maxlen)
    ensures len >= 0 ==> len <= out.Length && out[..len] == Decoding(str[..Strlen(str)]).value
    ensures maxlen > 0 ==> forall j :: maxlen <= j < out.Length ==> out[j] == old(out[j])
  {
    ghost var n := Strlen(str);
    ghost var s := str[..n];
    var pos: nat := 0;
    if str[0] == 43 && str[1] == 32 { pos := 2; }
    assert str[pos..n] == Unmarked(s);
    if str[pos] == CR {
      len := 0;
    } else {
      len := FromGroups(out, str, pos, maxlen);
    }
  }

  /** The loop over the groups. */
  method FromGroups(out: array<byte>, str: seq<byte>, start: nat, maxlen: nat) returns (len: int)
    requires 0 in str && start <= Strlen(str)
    requires maxlen <= out.Length && (maxlen == 0 ==> out.Length * 4 >= Strlen(str) * 3)
    modifies out
    ensures len == Answer(Groups(str[start..Strlen(str)]), maxlen)
    ensures len >= 0 ==> len <= out.Length && out[..len] == Groups(str[start..Strlen(str)]).value
    ensures maxlen > 0 ==> forall j :: maxlen <= j < out.Length ==> out[j] == old(out[j])
  {
    ghost var n := Strlen(str);
    ghost var whole := Groups(str[start..n]);
    var pos, more, ok, count: nat := start, true, true, 0;
    assert whole.Some? ==> out[..count] + whole.value == whole.value;
    ghost var rest := str[pos..n];
    while more
      invariant pos <= n && rest == str[pos..n] && count * 4 <= pos * 3
      invariant count <= out.Length && (maxlen > 0 ==> count <= maxlen)
      invariant maxlen > 0 ==> forall j :: maxlen <= j < out.Length ==> out[j] == old(out[j])
      invariant more ==> whole == Prepend(out[..count], Groups(rest))
      invariant !more ==> whole == Some(out[..count])
      decreases more, n - pos
    {
      ok, more, count := TakeGroup(out, str, pos, count, maxlen, n, rest, whole);
      if !ok { return -1; }
      pos := pos + 4;
      rest := rest[4..];
    }
    return count;
  }

  /** Decodes the group at `pos`. Fails on a wrong character and when the limit is passed. */
  method TakeGroup(out: array<byte>, str: seq<byte>, pos: nat, count: nat, maxlen: nat,
                   ghost n: nat, ghost rest: seq<byte>, ghost whole: Option<seq<byte>>)
    returns (ok: bool, more: bool, count': nat)
    requires pos <= n < |str| && str[n] == 0 && 0 !in str[..n] && rest == str[pos..n]
    requires count <= out.Length && (if maxlen > 0 then count <= maxlen <= out.Length else out.Length * 4 >= n * 3)
    requires count * 4 <= pos * 3 && whole == Prepend(out[..count], Groups(rest))
    modifies out
    ensures !ok ==> Answer(whole, maxlen) == -1
    ensures ok ==>
      && pos + 4 <= n && more == GoesOn(rest)
      && count' * 4 <= (pos + 4) * 3 && count' <= out.Length && (maxlen > 0 ==> count' <= maxlen)
      && whole == if more then Prepend(out[..count'], Groups(rest[4..])) else Some(out[..count'])
    ensures maxlen > 0 ==> forall j :: maxlen <= j < out.Length ==> out[j] == old(out[j])
  {
    var good := ReadGroup(str, pos, n);
    if !good { return false, false, count; }
    ghost var done, tail := out[..count], if GoesOn(rest) then Groups(rest[4..]) else Some([]);
    ghost var piece := Piece(rest);
    assert piece + [] == piece;
    assert Groups(rest) == Prepend(piece, tail);
    LongAlready(whole, done, piece, tail, maxlen);
    ok, count' := PutPiece(out, count, str[pos..pos + 4], maxlen);
    more := str[pos + 4] != 0 && str[pos + 4] != CR && str[pos + 3] != PAD;
    assert more == GoesOn(rest);
  }

  lemma LongAlready(whole: Option<seq<byte>>, done: seq<byte>, piece: seq<byte>, tail: Option<seq<byte>>, maxlen: nat)
    requires whole == Prepend(done, Prepend(piece, tail))
    ensures whole == Prepend(done + piece, tail)
    ensures 0 < maxlen < |done| + |piece| ==> Answer(whole, maxlen) == -1
  {
    if tail.Some? { assert done + (piece + tail.value) == done + piece + tail.value; }
  }

  /**
   * Whether the four characters at `pos` form a group.  They are looked at one
   * after the other, so that none behind the terminator is touched.
   */
  method ReadGroup(str: seq<byte>, pos: nat, ghost n: nat) returns (good: bool)
    requires pos <= n < |str| && str[n] == 0 && 0 !in str[..n]
    ensures good == IsGroup(str[pos..n])
  {
    ghost var s := str[pos..n];
    if !IsDigit(str[pos]) { return false; }
    if !IsDigit(str[pos + 1]) { return false; }
    if str[pos + 2] != PAD && !IsDigit(str[pos + 2]) { return false; }
    if str[pos + 3] != PAD && !IsDigit(str[pos + 3]) { return false; }
    return true;
  }

  /** Writes the bytes of a group one by one, up to the limit. */
  method PutPiece(out: array<byte>, count: nat, s: seq<byte>, maxlen: nat) returns (ok: bool, count': nat)
    requires IsGroup(s)
    requires count <= out.Length && (maxlen > 0 ==> count <= maxlen <= out.Length)
    requires maxlen == 0 ==> count + |Piece(s)| <= out.Length
    modifies out
    ensures ok <==> maxlen == 0 || count + |Piece(s)| <= maxlen
    ensures ok ==> count' == count + |Piece(s)| <= out.Length && out[..count'] == old(out[..count]) + Piece(s)
    ensures maxlen > 0 ==> forall j :: maxlen <= j < out.Length ==> out[j] == old(out[j])
  {
    var v0, v1 := Value(s[0]).value, Value(s[1]).value;
    ok, count' := PutByte(out, count, Byte0(v0, v1), maxlen);
    if ok && s[2] != PAD {
      var v2 := Value(s[2]).value;
      ok, count' := PutByte(out, count', Byte1(v1, v2), maxlen);
      if ok && s[3] != PAD {
        ok, count' := PutByte(out, count', Byte2(v2, Value(s[3]).value), maxlen);
      }
    }
  }

  /** Counts one byte more and writes it unless the limit is passed. */
  method PutByte(out: array<byte>, count: nat, b: byte, maxlen: nat) returns (ok: bool, count': nat)
    requires if maxlen == 0 then count < out.Length else count <= maxlen <= out.Length
    modifies out
    ensures count' == count + 1
    ensures ok <==> maxlen == 0 || count' <= maxlen
    ensures ok ==> count' <= out.Length && out[..count'] == old(out[..count]) + [b]
    ensures maxlen > 0 ==> forall j :: maxlen <= j < out.Length ==> out[j] == old(out[j])
  {
    count' := count + 1;
    ok := maxlen == 0 || count' <= maxlen;
    if ok { out[count] := b; }
  }

  // ----- Round trip -----

  /** A line end, or anything at all once a pad character has been read. */
  predicate Ends(data: seq<byte>, tail: seq<byte>) {
    tail == [] || tail[0] == CR || |data| % 3 != 0
  }

  /** Whether `data` divides into full groups. */
  predicate Whole(data: seq<byte>) { data == [] || (|data| >= 3 && Whole(data[3..])) }

  lemma {:induction false} WholeIff(data: seq<byte>)
    ensures Whole(data) <==> |data| % 3 == 0
  {
    if |data| >= 3 {
      WholeIff(data[3..]);
      Minus3(|data|);
    }
  }

  lemma Minus3(n: nat)
    requires n >= 3
    ensures (n - 3) % 3 == n % 3 && Len64(n) == 4 + Len64(n - 3)
  {
  }

  lemma GroupOfQuad(a: byte, b: byte, c: byte, rest: seq<byte>)
    ensures var s := Quad(a, b, c) + rest;
      IsGroup(s) && s[3] != PAD && s[4..] == rest && Piece(s) == [a, b, c]
  {
    DigitValue(First(a));
    DigitValue(Second(a, b));
    DigitValue(Third(b, c));
    DigitValue(Fourth(c));
    Regrouped(a, b, c);
  }

  lemma GroupOfFragment(data: seq<byte>, tail: seq<byte>)
    requires 1 <= |data| <= 2
    ensures var s := Fragment(data) + tail;
      IsGroup(s) && s[3] == PAD && Piece(s) == data
  {
    if |data| == 1 {
      var u, v := First(data[0]), Second(data[0], 0);
      FirstBack(data[0]);
      PieceOne(u, v, tail);
      assert Fragment(data) == [Digit(u), Digit(v), PAD, PAD];
    } else {
      var u, v, w := First(data[0]), Second(data[0], data[1]), Third(data[1], 0);
      Regrouped(data[0], data[1], 0);
      PieceTwo(u, v, w, tail);
      assert data == [Byte0(u, v), Byte1(v, w)];
      assert Fragment(data) == [Digit(u), Digit(v), Digit(w), PAD];
    }
  }

  lemma FirstBack(a: byte)
    ensures Byte0(First(a), Second(a, 0)) == a
  {
    Regrouped(a, 0, 0);
  }

  lemma PieceOne(u: sextet, v: sextet, tail: seq<byte>)
    ensures var s := [Digit(u), Digit(v), PAD, PAD] + tail;
      IsGroup(s) && s[3] == PAD && Piece(s) == [Byte0(u, v)]
  {
    DigitValue(u);
    DigitValue(v);
  }

  lemma PieceTwo(u: sextet, v: sextet, w: sextet, tail: seq<byte>)
    ensures var s := [Digit(u), Digit(v), Digit(w), PAD] + tail;
      IsGroup(s) && s[3] == PAD && Piece(s) == [Byte0(u, v), Byte1(v, w)]
  {
    DigitValue(u);
    DigitValue(v);
    DigitValue(w);
  }

  lemma {:induction false} GroupsOfEncoding(data: seq<byte>, tail: seq<byte>)
    requires data != [] && (tail == [] || tail[0] == CR || !Whole(data))
    ensures Groups(Encoding(data) + tail) == Some(data)
  {
    if |data| < 3 {
      GroupOfFragment(data, tail);
    } else {
      var more := data[3..];
      var rest := Encoding(more) + tail;
      if more != [] {
        GroupsOfEncoding(more, tail);
        StartsWithDigits(more, tail);
      } else {
        assert rest == tail;
      }
      GroupsFrom(data, more, rest);
      EncodingFrom(data, tail);
    }
  }

  lemma EncodingFrom(data: seq<byte>, tail: seq<byte>)
    requires |data| >= 3
    ensures Encoding(data) + tail == Quad(data[0], data[1], data[2]) + (Encoding(data[3..]) + tail)
  {
    Join(Quad(data[0], data[1], data[2]), Encoding(data[3..]), tail);
  }

  /** A full group in front of what is read as `more`, or of the end. */
  lemma GroupsFrom(data: seq<byte>, more: seq<byte>, rest: seq<byte>)
    requires |data| >= 3 && more == data[3..]
    requires if more == [] then rest == [] || rest[0] == CR
             else rest != [] && rest[0] != CR && Groups(rest) == Some(more)
    ensures Groups(Quad(data[0], data[1], data[2]) + rest) == Some(data)
  {
    GroupsOfQuad(data[0], data[1], data[2], rest);
    var head := [data[0], data[1], data[2]];
    assert data == head + more;
    assert more == [] ==> data == head;
  }

  lemma GroupsOfQuad(a: byte, b: byte, c: byte, rest: seq<byte>)
    ensures Groups(Quad(a, b, c) + rest)
         == if rest != [] && rest[0] != CR then Prepend([a, b, c], Groups(rest)) else Some([a, b, c])
  {
    GroupOfQuad(a, b, c, rest);
    var s := Quad(a, b, c) + rest;
    assert GoesOn(s) <==> rest != [] && rest[0] != CR;
  }

  lemma StartsWithDigits(data: seq<byte>, tail: seq<byte>)
    requires data != []
    ensures var s := Encoding(data) + tail; |s| >= 4 && s[0] != CR && s[1] != 32
  {
    DigitValue(First(data[0]));
    if |data| == 1 {
      DigitValue(Second(data[0], 0));
    } else {
      DigitValue(Second(data[0], data[1]));
    }
  }

  /**
   * The decoder inverts the encoder on every non-empty byte string, with or
   * without the challenge marker in front and whatever follows the line end.
   */
  lemma RoundTrip(data: seq<byte>, tail: seq<byte>)
    requires data != [] && Ends(data, tail)
    ensures Decoding(Encoding(data) + tail) == Some(data)
    ensures Decoding([43, 32] + (Encoding(data) + tail)) == Some(data)
  {
    var s := Encoding(data) + tail;
    WholeIff(data);
    GroupsOfEncoding(data, tail);
    StartsWithDigits(data, tail);
    assert Unmarked(s) == s;
    assert ([43, 32] + s)[2..] == s;
    assert Unmarked([43, 32] + s) == s;
  }

  /** The empty encoding is the one that does not come back. */
  lemma RoundTripIff(data: seq<byte>)
    ensures Decoding(Encoding(data)) == Some(data) <==> data != []
  {
    if data != [] {
      RoundTrip(data, []);
      assert Encoding(data) + [] == Encoding(data);
    }
  }

  lemma {:induction false} EncodingNoNul(data: seq<byte>)
    ensures 0 !in Encoding(data)
  {
    if |data| >= 3 {
      EncodingNoNul(data[3..]);
      DigitValue(First(data[0]));
      DigitValue(Second(data[0], data[1]));
      DigitValue(Third(data[1], data[2]));
      DigitValue(Fourth(data[2]));
    } else if |data| == 2 {
      DigitValue(First(data[0]));
      DigitValue(Second(data[0], data[1]));
      DigitValue(Third(data[1], 0));
    } else if |data| == 1 {
      DigitValue(First(data[0]));
      DigitValue(Second(data[0], 0));
    }
  }

  /**
   * Both routines in turn, through a buffer of `outlen` places: the bytes come
   * back if and only if they are not empty, the encoding fits and the decoder
   * is allowed to write them all.
   */
  method ThereAndBack(data: seq<byte>, outlen: nat, maxlen: nat) returns (back: Option<seq<byte>>)
    requires outlen >= 1
    ensures back == Some(data) <==>
      data != [] && outlen >= Len64(|data|) + 1 && (maxlen == 0 || maxlen >= |data|)
  {
    var text := new byte[outlen];
    ghost var end;
    var rc;
    rc, end := ToBase64(text, data, outlen);
    if rc != 0 { return None; }
    EncodingLength(data);
    EncodingNoNul(data);
    ghost var encoding := Encoding(data);
    assert text[..end] == encoding;
    assert text[..][end] == 0;
    StrlenIs(text[..], end);
    var out := new byte[outlen + maxlen];
    var len := FromBase64(out, text[..], maxlen);
    assert text[..][..end] == encoding;
    RoundTripIff(data);
    if len < 0 { return None; }
    back := Some(out[..len]);
  }

  lemma {:induction false} StrlenIs(s: seq<byte>, n: nat)
    requires n < |s| && s[n] == 0 && 0 !in s[..n]
    ensures Strlen(s) == n
  {
    if n > 0 {
      assert s[0] in s[..n];
      assert s[1..][..n - 1] == s[..n][1..];
      StrlenIs(s[1..], n - 1);
    }
  }
}
