/** What the two Base64 codecs make of any text: how the stream encoder breaks its lines, what its lenient decoder ignores and
    counts, and what the strict decoder takes and refuses. */
module Base64Laws {
  import opened Common
  import opened Base64Alphabet
  import opened AlterBase64
  import F = FetchBase64

  // ----- The lines of the stream encoder -----

  /** Up to a full line: with `j` groups on the line already, `20 - j` more fill it, and a break follows at once. */
  lemma {:induction false} FullRow(data: seq<byte>, s1: byte, s2: byte, j: nat)
    requires j < 20 && |data| >= 60 - 3 * j
    ensures var n := 60 - 3 * j;
      Encoded(data, s1, s2, 4 * j) == Quads(data[..n], s1, s2) + [LF] + Encoded(data[n..], s1, s2, 0)
    decreases 20 - j
  {
    var n := 60 - 3 * j;
    var quad, more := Quad(data[0], data[1], data[2]), data[3..];
    assert data[..n][0] == data[0] && data[..n][1] == data[1] && data[..n][2] == data[2] && data[..n][3..] == more[..n - 3];
    assert more[n - 3..] == data[n..];
    if j == 19 {
      assert more[..n - 3] == [] && Quads(data[..n], s1, s2) == quad + [] == quad;
      assert more == data[n..];
      Join(quad, [LF], Encoded(more, s1, s2, 0));
    } else {
      FullRow(more, s1, s2, j + 1);
      Join(Quads(more[..n - 3], s1, s2), [LF], Encoded(data[n..], s1, s2, 0));
      Join(quad, Quads(more[..n - 3], s1, s2), [LF] + Encoded(data[n..], s1, s2, 0));
      Join(quad + Quads(more[..n - 3], s1, s2), [LF], Encoded(data[n..], s1, s2, 0));
    }
  }

  lemma {:induction false} LastRow(data: seq<byte>, s1: byte, s2: byte, j: nat, m: nat, extra: nat)
    requires |data| == 3 * m + extra < 60 - 3 * j && extra < 3
    ensures Encoded(data, s1, s2, 4 * j) == Quads(data, s1, s2) + if extra == 0 then [] else [LF]
    decreases m
  {
    if m > 0 {
      var more, end: seq<byte> := data[3..], if extra == 0 then [] else [LF];
      var quad, quads := Quad(data[0], data[1], data[2]), Quads(more, s1, s2);
      assert EncodedRest(more, s1, s2, 4 * j + 4) == quads + end by { LastRow(more, s1, s2, j + 1, m - 1, extra); }
      assert Encoded(data, s1, s2, 4 * j) == quad + (quads + end);
      Join(quad, quads, end);
    } else if extra == 0 {
      assert Encoded(data, s1, s2, 4 * j) == [] == Quads(data, s1, s2) + [];
    } else {
      assert Quads(data, s1, s2) == LastQuad(data, s1, s2);
    }
  }

  lemma {:induction false} QuadsLength(data: seq<byte>, s1: byte, s2: byte)
    ensures |Quads(data, s1, s2)| == 4 * ((|data| + 2) / 3)
  {
    if |data| >= 3 { QuadsLength(data[3..], s1, s2); }
  }

  /** Sixty bytes make a line of eighty characters and its break; what is left makes a last line, which has a break only if
      its last group is padded. */
  lemma Rows(data: seq<byte>, s1: byte, s2: byte)
    ensures if |data| >= 60 then
        && |Quads(data[..60], s1, s2)| == 80
        && Encoded(data, s1, s2, 0) == Quads(data[..60], s1, s2) + [LF] + Encoded(data[60..], s1, s2, 0)
      else Encoded(data, s1, s2, 0) == Quads(data, s1, s2) + if |data| % 3 == 0 then [] else [LF]
  {
    if |data| >= 60 {
      FullRow(data, s1, s2, 0);
      QuadsLength(data[..60], s1, s2);
    } else {
      LastRow(data, s1, s2, 0, |data| / 3, |data| % 3);
    }
  }

  // ----- The lenient decoder -----

  /** A character that is neither a digit nor the pad character makes no difference anywhere; every other does take part. */
  lemma Junk(a: seq<byte>, c: byte, b: seq<byte>)
    ensures Value(c).None? && c != 61 ==> Decoded(a + [c] + b) == Decoded(a + b)
    ensures Value(c).Some? || c == 61 ==> Kept(a + [c] + b) == Kept(a) + [c] + Kept(b)
  {
    KeptAppend(a + [c], b);
    KeptAppend(a, [c]);
    KeptAppend(a, b);
    KeptOne(c);
    assert Kept(a) + [] == Kept(a);
  }

  lemma KeptOne(c: byte)
    ensures Kept([c]) == if c == 61 || Value(c).Some? then [c] else []
  {
    var s := [c];
    assert s[1..] == [] && Kept(s[1..]) == [];
    if Admitted(c) {
      assert Kept(s) == [s[0]] + Kept(s[1..]);
    } else {
      assert Kept(s) == Kept(s[1..]);
    }
  }

  /** Whole groups are decoded on their own, and what pad characters they had counts against all groups behind them. */
  lemma {:induction false} GroupsAfter(a: seq<byte>, b: seq<byte>, stops: nat, m: nat)
    requires |a| == 4 * m
    ensures DecodeKept(a + b, stops) == DecodeKept(a, stops) + DecodeKept(b, stops + Pads(a))
  {
    if a == [] {
      assert a + b == b;
    } else {
      var g, a' := a[..4], a[4..];
      var stops' := stops + Pads(g);
      var front, rest, last := Bytes(Values(g))[..Share(stops')], DecodeKept(a', stops'), DecodeKept(b, stops + Pads(a));
      assert g + a' == a;
      assert DecodeKept(a, stops) == front + rest by { OneGroup(g, a', stops); }
      assert DecodeKept(a' + b, stops') == rest + last by {
        PadsSum(g, a');
        GroupsAfter(a', b, stops', m - 1);
      }
      assert DecodeKept(a + b, stops) == front + (rest + last) by {
        Join(g, a', b);
        OneGroup(g, a' + b, stops);
      }
      Join(front, rest, last);
    }
  }

  lemma OneGroup(g: seq<byte>, rest: seq<byte>, stops: nat)
    requires |g| == 4
    ensures var stops' := stops + Pads(g);
      DecodeKept(g + rest, stops) == Bytes(Values(g))[..Share(stops')] + DecodeKept(rest, stops')
  {
    assert (g + rest)[..4] == g && (g + rest)[4..] == rest;
  }

  lemma {:induction false} PadsSum(a: seq<byte>, b: seq<byte>)
    ensures Pads(a + b) == Pads(a) + Pads(b)
  {
    if a == [] {
      assert a + b == b;
    } else {
      PadsSum(a[1..], b);
      assert (a + b)[1..] == a[1..] + b;
    }
  }

  /** After `stops` pad characters every group without one gives three bytes less that many, in the end none. */
  lemma {:induction false} BytesLeft(k: seq<byte>, stops: nat)
    requires PAD !in k
    ensures |DecodeKept(k, stops)| == |k| / 4 * if stops < 3 then 3 - stops else 0
  {
    if |k| >= 4 {
      NoPads(k[..4]);
      BytesLeft(k[4..], stops);
      var left := if stops < 3 then 3 - stops else 0;
      assert |DecodeKept(k, stops)| == left + (|k| - 4) / 4 * left;
      OneMore((|k| - 4) / 4, left);
    }
  }

  lemma OneMore(n: nat, left: nat)
    ensures left + n * left == (n + 1) * left
  {
  }

  lemma {:induction false} NoPads(k: seq<byte>)
    requires PAD !in k
    ensures Pads(k) == 0
  {
    if k != [] { NoPads(k[1..]); }
  }

  // ----- The strict decoder -----

  /** Groups of four digits. */
  predicate Whole(a: seq<byte>) { |a| % 4 == 0 && forall i :: 0 <= i < |a| ==> Value(a[i]).Some? }

  /** The bytes of such groups. */
  function Plain(a: seq<byte>): seq<byte>
    requires |a| % 4 == 0
  {
    if a == [] then [] else Bytes(Values(a[..4])) + Plain(a[4..])
  }

  lemma DigitGroup(a: seq<byte>)
    requires Whole(a) && a != []
    ensures F.IsGroup(a) && F.Piece(a) == Bytes(Values(a[..4])) && a[3] != PAD && a[0] != CR && Whole(a[4..])
  {
    var g := a[..4];
    assert g[0] == a[0] && g[1] == a[1] && g[2] == a[2] && g[3] == a[3];
    assert a[2] != PAD && a[3] != PAD;
  }

  /** Groups of digits are decoded one after another up to the end of the text or a CR, or on to what follows. */
  lemma {:induction false} StrictGroups(a: seq<byte>, rest: seq<byte>)
    requires Whole(a) && a != []
    ensures F.Groups(a + rest) == if rest == [] || rest[0] == CR then Some(Plain(a)) else F.Prepend(Plain(a), F.Groups(rest))
    decreases |a|
  {
    var t, a' := a + rest, a[4..];
    DigitGroup(a);
    assert t[..4] == a[..4] && t[4..] == a' + rest && F.Piece(t) == F.Piece(a);
    if a' == [] {
      assert a' + rest == rest && Plain(a) == F.Piece(a) + [] == F.Piece(a);
    } else {
      DigitGroup(a');
      assert t[4] == a'[0] != CR;
      StrictGroups(a', rest);
      if F.Groups(rest).Some? { Join(F.Piece(a), Plain(a'), F.Groups(rest).value); }
    }
  }

  /** The text has no group of four at its front. */
  predicate NoGroup(rest: seq<byte>) {
    || |rest| < 4 || Value(rest[0]).None? || Value(rest[1]).None?
    || (rest[2] != 61 && Value(rest[2]).None?) || (rest[3] != 61 && Value(rest[3]).None?)
  }

  /** A wrong or missing character refuses the whole text; a padded group ends it, whatever follows. */
  lemma StrictEnd(a: seq<byte>, rest: seq<byte>)
    requires Whole(a)
    ensures NoGroup(rest) && (a == [] || (rest != [] && rest[0] != CR)) ==> F.Groups(a + rest) == None
    ensures !NoGroup(rest) && rest[3] == 61 ==>
      var u, v, w := F.Piece(rest), rest[2] == 61, F.Groups(a + rest);
      w == Some(Plain(a) + u) && |u| == if v then 1 else 2
  {
    if a != [] { StrictGroups(a, rest); }
    assert a == [] ==> a + rest == rest && Plain(a) == [];
    if !NoGroup(rest) { assert [] + F.Piece(rest) == F.Piece(rest); }
  }
}
