/** What the rules by which text is cut into lines come to: which strings are line breaks, what the lines of the usual kinds
    of text are, and when a reader takes to ending lines at every CR. */
module LineLaws {
  import opened Common
  import opened LineCuts

  // ----- The longest line break -----

  /** The strings that end a line. Once CR alone ends lines, CR and LF are two breaks. */
  function Breaks(sdl: bool): set<seq<byte>> {
    {[LF], [CR], [CR, CR], [LF, CR], [LF, CR, CR]} + if sdl then {} else {[CR, LF], [LF, CR, LF]}
  }

  /** The first `n` bytes of the text are a line break, and no more of them are. */
  ghost predicate LongestBreak(sdl: bool, text: seq<byte>, n: nat) {
    n <= |text| && text[..n] in Breaks(sdl) && forall m :: n < m <= |text| ==> text[..m] !in Breaks(sdl)
  }

  /** How far the reader looks: to the end of the block, or one byte behind a delimiter at its end. */
  function Visible(n: nat, t: nat, end: nat): nat
    requires t < n
  {
    if end > t + 2 then Min(end, n) else Min(t + 2, n)
  }

  lemma ShortBreaks(sdl: bool, text: seq<byte>, m: nat)
    requires m <= |text|
    ensures text[..m] in Breaks(sdl) ==> 1 <= m <= 3
    ensures m == 1 ==> (text[..m] in Breaks(sdl) <==> text[0] == LF || text[0] == CR)
    ensures m == 2 ==>
      (text[..m] in Breaks(sdl) <==> (IsBreak(text[0]) && text[1] == CR) || (!sdl && text[0] == CR && text[1] == LF))
    ensures m == 3 ==>
      (text[..m] in Breaks(sdl) <==> text[0] == LF && text[1] == CR && (text[2] == CR || (!sdl && text[2] == LF)))
  {
    if m == 1 { assert text[..m] == [text[0]]; }
    if m == 2 { assert text[..m] == [text[0], text[1]]; }
    if m == 3 { assert text[..m] == [text[0], text[1], text[2]]; }
  }

  /** Where the first block that a call looks at ends. */
  function FirstEnd(n: nat, left: nat, size: nat): nat { if left == 0 then Min(size, n) else left }

  /** The line that is cut off at `n` with its break at `t` ends with the longest line break that the reader can see. CR ends
      lines from then on if that break ends with a CR, unless the text ends with a lone CR. */
  ghost predicate EndsLongest(mode: Mode, s: seq<byte>, t: nat, end: nat, n: nat, mode': Mode)
    requires t < |s|
  {
    && t < n <= |s| && LongestBreak(mode.sdl, s[t..Visible(|s|, t, end)], n - t)
    && (mode'.sdl <==> mode.sdl || (s[n - 1] == CR && t + 1 < |s|))
    && (mode'.doubleCR <==> mode.doubleCR || (n > t + 1 && s[n - 2] == CR && s[n - 1] == CR))
  }

  /** The rules for pairing break bytes take the longest line break. */
  lemma BreakLongest(mode: Mode, s: seq<byte>, t: nat, end: nat)
    requires t < |s| && IsBreak(s[t])
    ensures var b := BreakAt(mode, s, t, end); EndsLongest(mode, s, t, end, t + b.len, b.mode)
  {
    var b, text := BreakAt(mode, s, t, end), s[t..Visible(|s|, t, end)];
    assert forall i :: 0 <= i < |text| ==> text[i] == s[t + i];
    ShortBreaks(mode.sdl, text, b.len);
    forall m | b.len < m <= |text| ensures text[..m] !in Breaks(mode.sdl) {
      ShortBreaks(mode.sdl, text, m);
    }
  }

  /** A line that is short enough is not cut off: its cut is its break in the block that holds it, or the end of the text. */
  lemma {:induction false} CutWhole(crToo: bool, mode: Mode, s: seq<byte>, end: nat, size: nat, full: nat)
    requires size > 0 && 0 < end <= |s| && full > 0 && LineLen(crToo, s) <= full
    ensures var c, t := CutFrom(crToo, mode, s, end, size, full), ToFirst(crToo, s);
      if t == |s| then c.n == t && c.mode == mode
      else t < c.n <= |s| && Break(c.n - t, c.mode) == BreakAt(mode, s, t, BlockEnd(end, size, |s|, t))
    decreases |s| - end
  {
    var t := ToFirst(crToo, s);
    if t < end {
      BreakWithinLine(crToo, mode, s, end);
    } else {
      assert t < |s| ==> t < LineLen(crToo, s);
      if end < full && end < |s| {
        CutWhole(crToo, mode, s, Min(end + size, |s|), size, full);
      }
    }
  }

  /** What one call hands out of a text whose line fits. */
  lemma CallLongest(crToo: bool, mode: Mode, s: seq<byte>, left: nat, size: nat, maxsize: nat)
    requires size > 0 && s != [] && left <= |s| && maxsize >= 3 && LineLen(crToo, s) <= maxsize - 2
    ensures var c, t := NextCut(crToo, mode, s, left, size, maxsize), ToFirst(crToo, s);
      if t == |s| then c.n == t && c.mode == mode
      else EndsLongest(mode, s, t, BlockEnd(FirstEnd(|s|, left, size), size, |s|, t), c.n, c.mode)
  {
    var end, t := FirstEnd(|s|, left, size), ToFirst(crToo, s);
    CutWhole(crToo, mode, s, end, size, maxsize - 2);
    if t < |s| {
      BreakLongest(mode, s, t, BlockEnd(end, size, |s|, t));
    }
  }

  // ----- The lines of the usual kinds of text -----

  /** The first place of `brk` from `i` on, or the end of the text. */
  function FirstBreak(s: seq<byte>, brk: seq<byte>, i: nat): (r: nat)
    requires brk != [] && i <= |s|
    ensures i <= r <= |s| && (r < |s| ==> r + |brk| <= |s|)
    decreases |s| - i
  {
    if i == |s| || OccursAt(s, brk, i) then i else FirstBreak(s, brk, i + 1)
  }

  /** The text split behind every `brk`. */
  function SplitBehind(s: seq<byte>, brk: seq<byte>): seq<seq<byte>>
    requires brk != []
    decreases |s|
  {
    if s == [] then []
    else
      var i := FirstBreak(s, brk, 0);
      if i == |s| then [s] else [s[..i + |brk|]] + SplitBehind(s[i + |brk|..], brk)
  }

  /** The usual kinds of text: Unix, old Macintosh, and the internet's. */
  datatype Kind = LfText | CrText | CrlfText {
    function Break(): seq<byte> { match this case LfText => [LF] case CrText => [CR] case CrlfText => [CR, LF] }

    /** All break bytes belong to line breaks of this kind. Lines that end with CR are not empty. */
    ghost predicate Of(s: seq<byte>) {
      match this
      case LfText => CR !in s
      case CrText => LF !in s && forall i :: 0 <= i < |s| - 1 && s[i] == CR ==> s[i + 1] != CR
      case CrlfText => Paired(s) && forall i :: 0 <= i < |s| && s[i] == LF ==> i > 0 && s[i - 1] == CR
    }

    /** The reader sees such breaks: CR ends lines if there is one, but not yet without an LF behind it. */
    predicate Seen(crToo: bool, sdl: bool) { LfText? || (crToo && (CrText? || !sdl)) }
  }

  /** Every CR has its LF. */
  ghost predicate Paired(s: seq<byte>) {
    forall i :: 0 <= i < |s| && s[i] == CR ==> i + 1 < |s| && s[i + 1] == LF
  }

  /** Text goes on being of one kind where it is not cut in the middle of a pair. */
  lemma KindTail(kind: Kind, s: seq<byte>, n: nat)
    requires kind.Of(s) && n <= |s| && (0 < n < |s| ==> s[n - 1] != CR || s[n] != LF)
    ensures kind.Of(s[n..])
  {
    var tail := s[n..];
    forall i | 0 <= i < |tail| && kind.CrlfText?
      ensures tail[i] == LF ==> i > 0 && tail[i - 1] == CR
      ensures tail[i] == CR ==> i + 1 < |tail| && tail[i + 1] == LF
    {
      assert tail[i] == s[n + i];
      if tail[i] == LF {
        assert s[n + i - 1] == CR;
        assert i > 0 ==> tail[i - 1] == s[n + i - 1];
      }
    }
  }

  lemma OccursFirst(s: seq<byte>, brk: seq<byte>, i: nat)
    requires brk != [] && i < |s|
    ensures OccursAt(s, brk, i) ==> s[i] == brk[0]
  {
    if OccursAt(s, brk, i) { assert s[i..i + |brk|][0] == s[i]; }
  }

  lemma {:induction false} BreakFound(s: seq<byte>, brk: seq<byte>, i: nat, t: nat)
    requires brk != [] && i <= t <= |s| && (t < |s| ==> OccursAt(s, brk, t)) && forall k :: i <= k < t ==> s[k] != brk[0]
    ensures FirstBreak(s, brk, i) == t
    decreases t - i
  {
    if i < t {
      OccursFirst(s, brk, i);
      BreakFound(s, brk, i + 1, t);
    }
  }

  lemma FirstSeen(kind: Kind, crToo: bool, sdl: bool, s: seq<byte>)
    requires kind.Seen(crToo, sdl) && kind.Of(s)
    ensures var t, brk := ToFirst(crToo, s), kind.Break();
      && FirstBreak(s, brk, 0) == t
      && (t < |s| ==> t + |brk| <= |s| && s[t] == brk[0] && (|brk| == 2 ==> s[t + 1] == brk[1]))
  {
    var t, brk := ToFirst(crToo, s), kind.Break();
    if t < |s| {
      assert s[t] in s;
      if kind.CrlfText? && s[t] == LF { assert IsDelimiter(crToo, s[t - 1]); }
      assert s[t] == brk[0];
      assert s[t..t + |brk|] == brk;
    }
    BreakFound(s, brk, 0, t);
  }

  /** A line that ends at `n` with the first break of the kind, or with the text, and not between a CR and an LF. */
  ghost predicate EndsKind(kind: Kind, mode: Mode, s: seq<byte>, n: nat, mode': Mode) {
    var i := FirstBreak(s, kind.Break(), 0);
    && n == (if i == |s| then i else i + |kind.Break()|) <= |s| && (n < |s| && n > 0 ==> s[n - 1] != CR || s[n] != LF)
    && (!kind.CrText? ==> mode' == mode)
  }

  /** One call on such text. */
  lemma KindCut(kind: Kind, crToo: bool, mode: Mode, s: seq<byte>, left: nat, size: nat, maxsize: nat)
    requires kind.Seen(crToo, mode.sdl) && kind.Of(s) && s != []
    requires size > 0 && left <= |s| && maxsize >= 3 && LineLen(crToo, s) <= maxsize - 2
    ensures var c := NextCut(crToo, mode, s, left, size, maxsize); EndsKind(kind, mode, s, c.n, c.mode)
  {
    var t, end := ToFirst(crToo, s), FirstEnd(|s|, left, size);
    var c := NextCut(crToo, mode, s, left, size, maxsize);
    var b := if t < |s| then BreakAt(mode, s, t, BlockEnd(end, size, |s|, t)) else Break(0, mode);
    assert c.n == t + b.len && c.mode == b.mode by { CutWhole(crToo, mode, s, end, size, maxsize - 2); }
    assert EndsKind(kind, mode, s, t + b.len, b.mode) by {
      if t < |s| {
        KindBreak(kind, crToo, mode, s, BlockEnd(end, size, |s|, t));
      } else {
        FirstSeen(kind, crToo, mode.sdl, s);
      }
    }
  }

  lemma KindBreak(kind: Kind, crToo: bool, mode: Mode, s: seq<byte>, end: nat)
    requires kind.Seen(crToo, mode.sdl) && kind.Of(s) && ToFirst(crToo, s) < |s|
    ensures var t := ToFirst(crToo, s);
            var b := BreakAt(mode, s, t, end);
      EndsKind(kind, mode, s, t + b.len, b.mode)
  {
    var t := ToFirst(crToo, s);
    FirstSeen(kind, crToo, mode.sdl, s);
    assert s[t] in s && (t + 1 < |s| ==> s[t + 1] in s);
  }

  /** The lines of Unix text end exactly at the LFs, whatever the reader watches for; where CR ends lines, those of old
      Macintosh text end exactly at the CRs; and, as long as CR alone has not ended a line, those of internet text end
      exactly at the pairs. Where blocks end makes no difference. */
  lemma {:induction false} KindLines(kind: Kind, watch: bool, mode: Mode, s: seq<byte>, left: nat, size: nat, maxsize: nat)
    requires kind.Seen(watch || mode.sdl, mode.sdl) && kind.Of(s)
    requires size > 0 && left <= |s| && maxsize >= 3 && Fits(watch || mode.sdl, s, maxsize - 2)
    ensures Pieces(watch, mode, s, left, size, maxsize) == SplitBehind(s, kind.Break())
    decreases |s|
  {
    if s != [] {
      var crToo := watch || mode.sdl;
      var c := NextCut(crToo, mode, s, left, size, maxsize);
      PiecesStep(watch, mode, s, left, size, maxsize);
      KindCut(kind, crToo, mode, s, left, size, maxsize);
      KindTail(kind, s, c.n);
      KindLines(kind, watch, c.mode, s[c.n..], c.left, size, maxsize);
      SplitStep(s, kind.Break(), c.n);
    }
  }

  lemma {:induction false} SplitStep(s: seq<byte>, brk: seq<byte>, n: nat)
    requires brk != [] && s != [] && 0 < n <= |s|
    requires var i := FirstBreak(s, brk, 0); n == if i == |s| then i else i + |brk|
    ensures SplitBehind(s, brk) == [s[..n]] + SplitBehind(s[n..], brk)
  {
    if n == |s| { assert s[..n] == s && s[n..] == []; }
  }

  /** One call, and what it leaves for the next. */
  lemma PiecesStep(watch: bool, mode: Mode, s: seq<byte>, left: nat, size: nat, maxsize: nat)
    requires s != [] && size > 0 && left <= |s| && maxsize >= 3 && Fits(watch || mode.sdl, s, maxsize - 2)
    ensures var c := NextCut(watch || mode.sdl, mode, s, left, size, maxsize);
      && 1 <= c.n <= |s| && c.left <= |s| - c.n && Fits(watch || c.mode.sdl, s[c.n..], maxsize - 2)
      && LineLen(watch || mode.sdl, s) <= maxsize - 2 && (mode.sdl ==> c.mode.sdl)
      && Pieces(watch, mode, s, left, size, maxsize) == [s[..c.n]] + Pieces(watch, c.mode, s[c.n..], c.left, size, maxsize)
  {
    var crToo := watch || mode.sdl;
    var c := NextCut(crToo, mode, s, left, size, maxsize);
    CutBounds(crToo, mode, s, FirstEnd(|s|, left, size), size, maxsize - 2);
    FitsSuffix(crToo, s, c.n, maxsize - 2);
    FitsLater(crToo, watch || c.mode.sdl, s[c.n..], maxsize - 2);
  }

  // ----- When CR takes to ending lines -----

  /** Exactly when a call finds that CR ends lines by itself: the line ends at a CR that something other than an LF follows,
      or at an LF and a CR behind which no LF can be seen. */
  lemma SdlOnIff(crToo: bool, mode: Mode, s: seq<byte>, left: nat, size: nat, maxsize: nat)
    requires size > 0 && s != [] && left <= |s| && maxsize >= 3 && LineLen(crToo, s) <= maxsize - 2 && !mode.sdl
    ensures var t := ToFirst(crToo, s);
            var seen := if t < |s| then Visible(|s|, t, BlockEnd(FirstEnd(|s|, left, size), size, |s|, t)) else t;
      NextCut(crToo, mode, s, left, size, maxsize).mode.sdl <==>
        && t + 1 < |s|
        && if s[t] == CR then s[t + 1] != LF else s[t + 1] == CR && (t + 2 < seen ==> s[t + 2] != LF)
  {
    CutWhole(crToo, mode, s, FirstEnd(|s|, left, size), size, maxsize - 2);
  }

  /** No line break straddles a block end, from here to the end of the text. */
  ghost predicate EdgesAside(watch: bool, mode: Mode, s: seq<byte>, left: nat, size: nat, maxsize: nat)
    requires size > 0 && left <= |s| && maxsize >= 3
    decreases |s|
  {
    s != [] ==>
      var crToo := watch || mode.sdl;
      var c := NextCut(crToo, mode, s, left, size, maxsize);
      CutBounds(crToo, mode, s, FirstEnd(|s|, left, size), size, maxsize - 2);
      var t := ToFirst(crToo, s);
      && !Straddles(mode.sdl, s, t, BlockEnd(FirstEnd(|s|, left, size), size, |s|, t))
      && EdgesAside(watch, c.mode, s[c.n..], c.left, size, maxsize)
  }

  /** One call on text in which every CR has its LF: the pair stays together if and only if no block end comes between. */
  lemma PairedCut(crToo: bool, mode: Mode, s: seq<byte>, left: nat, size: nat, maxsize: nat)
    requires Paired(s) && !mode.sdl && s != [] && size > 0 && left <= |s| && maxsize >= 3 && LineLen(crToo, s) <= maxsize - 2
    ensures var c, t := NextCut(crToo, mode, s, left, size, maxsize), ToFirst(crToo, s);
      && 1 <= c.n <= |s|
      && (!c.mode.sdl && (c.n == |s| || s[c.n - 1] == LF) <==>
          !Straddles(mode.sdl, s, t, BlockEnd(FirstEnd(|s|, left, size), size, |s|, t)))
  {
    var t := ToFirst(crToo, s);
    CutBounds(crToo, mode, s, FirstEnd(|s|, left, size), size, maxsize - 2);
    CutWhole(crToo, mode, s, FirstEnd(|s|, left, size), size, maxsize - 2);
    if t < |s| {
      assert s[t] == CR ==> s[t + 1] == LF;
      assert t + 1 < |s| && s[t + 1] == CR ==> s[t + 2] == LF;
    }
  }

  /** All lines but perhaps the last end with LF. */
  ghost predicate EndWithLf(lines: seq<seq<byte>>) {
    forall i :: 0 <= i < |lines| - 1 ==> lines[i] != [] && lines[i][|lines[i]| - 1] == LF
  }

  /** In text in which every CR has its LF, watched or not, no line ends between the two: all lines but perhaps the last end
      with LF, as long as no block end comes between. */
  lemma {:induction false} PairedLines(watch: bool, mode: Mode, s: seq<byte>, left: nat, size: nat, maxsize: nat)
    requires Paired(s) && !mode.sdl && size > 0 && left <= |s| && maxsize >= 3 && Fits(watch, s, maxsize - 2)
    requires EdgesAside(watch, mode, s, left, size, maxsize)
    ensures EndWithLf(Pieces(watch, mode, s, left, size, maxsize))
    decreases |s|
  {
    if s != [] {
      var c := NextCut(watch, mode, s, left, size, maxsize);
      PiecesStep(watch, mode, s, left, size, maxsize);
      var rest := s[c.n..];
      var lines := Pieces(watch, c.mode, rest, c.left, size, maxsize);
      assert !c.mode.sdl && (s[c.n - 1] == LF || c.n == |s|) by {
        PairedCut(watch, mode, s, left, size, maxsize);
      }
      if c.n == |s| {
        assert lines == [];
      } else {
        assert EndWithLf(lines) by {
          PairedTail(s, c.n);
          PairedLines(watch, c.mode, rest, c.left, size, maxsize);
        }
      }
      LfFirst(s, c.n, lines);
    }
  }

  lemma PairedTail(s: seq<byte>, n: nat)
    requires Paired(s) && n <= |s|
    ensures Paired(s[n..])
  {
    assert forall i :: 0 <= i < |s| - n ==> s[n..][i] == s[n + i];
  }

  lemma LfFirst(s: seq<byte>, n: nat, lines: seq<seq<byte>>)
    requires 0 < n <= |s| && (s[n - 1] == LF || lines == []) && EndWithLf(lines)
    ensures EndWithLf([s[..n]] + lines)
  {
    assert forall i :: 1 <= i < |lines| + 1 ==> ([s[..n]] + lines)[i] == lines[i - 1];
  }

  // ----- The lines once CR ends lines by itself -----

  /** A line with its break: no break byte before it, and no CR before an LF in it. */
  ghost predicate BrokenLine(line: seq<byte>) { exists t :: 0 <= t < |line| && Unbroken(true, line, t) && line[t..] in Breaks(true) }

  /** The last line may have no break. */
  ghost predicate LastLine(line: seq<byte>) { BrokenLine(line) || Unbroken(true, line, |line|) }

  /** A line that ends with LF, or with one CR and no other break byte, is not followed by a CR. */
  ghost predicate MayFollow(line: seq<byte>, next: seq<byte>) {
    line != [] && next != [] && next[0] == CR ==>
      line[|line| - 1] == CR && |line| > 1 && IsBreak(line[|line| - 2])
  }

  ghost predicate SingleDelimited(lines: seq<seq<byte>>) {
    lines != [] ==>
      if |lines| == 1 then LastLine(lines[0])
      else BrokenLine(lines[0]) && MayFollow(lines[0], lines[1]) && SingleDelimited(lines[1..])
  }

  lemma SdlCut(mode: Mode, s: seq<byte>, left: nat, size: nat, maxsize: nat)
    requires mode.sdl && s != [] && size > 0 && left <= |s| && maxsize >= 3 && LineLen(true, s) <= maxsize - 2
    ensures var c := NextCut(true, mode, s, left, size, maxsize);
      && 1 <= c.n <= |s| && MayFollow(s[..c.n], s[c.n..])
      && if c.n < |s| then BrokenLine(s[..c.n]) else LastLine(s[..c.n])
  {
    var c, t := NextCut(true, mode, s, left, size, maxsize), ToFirst(true, s);
    CallLongest(true, mode, s, left, size, maxsize);
    if t < |s| {
      SdlBreak(s, t, BlockEnd(FirstEnd(|s|, left, size), size, |s|, t), c.n);
    } else {
      assert s[..c.n] == s;
    }
  }

  lemma SdlBreak(s: seq<byte>, t: nat, end: nat, n: nat)
    requires t < n <= |s| && Unbroken(true, s, t) && LongestBreak(true, s[t..Visible(|s|, t, end)], n - t)
    ensures BrokenLine(s[..n]) && MayFollow(s[..n], s[n..])
  {
    var text, line := s[t..Visible(|s|, t, end)], s[..n];
    assert line[t..] == text[..n - t];
    if n < |s| && s[n] == CR {
      assert n - t < |text| ==> text[n - t] == s[n];
      LongestTakesCr(text, n - t);
      assert line[n - 1] == text[n - t - 1] && line[n - 2] == text[n - t - 2];
    }
  }

  /** The longest break takes the CR that follows an LF or a first CR. */
  lemma LongestTakesCr(text: seq<byte>, n: nat)
    requires LongestBreak(true, text, n) && |text| > 1 && (n < |text| ==> text[n] == CR)
    ensures n > 1 && text[n - 1] == CR && IsBreak(text[n - 2])
  {
    ShortBreaks(true, text, n);
    if n < |text| { ShortBreaks(true, text, n + 1); }
  }

  /** Once CR ends lines by itself, a CR before an LF ends a line alone, and two CRs end one line together. */
  lemma {:induction false} SdlLines(watch: bool, mode: Mode, s: seq<byte>, left: nat, size: nat, maxsize: nat)
    requires mode.sdl && size > 0 && left <= |s| && maxsize >= 3 && Fits(true, s, maxsize - 2)
    ensures SingleDelimited(Pieces(watch, mode, s, left, size, maxsize))
    decreases |s|
  {
    if s != [] {
      var c := NextCut(true, mode, s, left, size, maxsize);
      PiecesStep(watch, mode, s, left, size, maxsize);
      SdlCut(mode, s, left, size, maxsize);
      SdlLines(watch, c.mode, s[c.n..], c.left, size, maxsize);
    }
  }
}
