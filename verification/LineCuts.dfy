/** How a text is cut into lines whose ends may be LF, CR or pairs of them, when it comes in blocks: the rules that the
    line reader is held to. */
module LineCuts {
  import opened Common

  /** File data as the reader hands it out: NUL bytes become spaces. */
  function Clean(s: seq<byte>): (r: seq<byte>)
    ensures |r| == |s|
  {
    if s == [] then [] else Clean(s[..|s| - 1]) + [if s[|s| - 1] == 0 then SPACE else s[|s| - 1]]
  }

  lemma {:induction false} CleanAt(s: seq<byte>, i: nat)
    requires i < |s|
    ensures Clean(s)[i] == if s[i] == 0 then SPACE else s[i]
  {
    if i < |s| - 1 {
      CleanAt(s[..|s| - 1], i);
    }
  }

  lemma CleanAll(s: seq<byte>)
    ensures forall i :: 0 <= i < |s| ==> Clean(s)[i] == if s[i] == 0 then SPACE else s[i]
  {
    forall i | 0 <= i < |s| ensures Clean(s)[i] == if s[i] == 0 then SPACE else s[i] {
      CleanAt(s, i);
    }
  }

  lemma CleanAppend(s: seq<byte>, t: seq<byte>)
    ensures Clean(s + t) == Clean(s) + Clean(t)
  {
    CleanAll(s);
    CleanAll(t);
    CleanAll(s + t);
  }

  /** The first byte handed out is the first of the file. */
  lemma CleanHead(file: seq<byte>)
    requires file != []
    ensures Clean(file) == [if file[0] == 0 then SPACE else file[0]] + Clean(file[1..])
  {
    CleanAppend(file[..1], file[1..]);
    assert file == file[..1] + file[1..];
    CleanAt(file[..1], 0);
  }

  /** Moving the first byte of the file behind the data in the buffer. */
  lemma MoveHead(data: seq<byte>, file: seq<byte>, c: byte)
    requires file != [] && c == if file[0] == 0 then SPACE else file[0]
    ensures data + Clean(file) == (data + [c]) + Clean(file[1..])
    ensures file == [file[0]] + file[1..]
  {
    CleanHead(file);
    Join(data, [c], Clean(file[1..]));
  }

  lemma Split(data: seq<byte>, tail: seq<byte>, len: nat)
    requires len <= |data|
    ensures (data + tail)[..len] == data[..len] && (data + tail)[len..] == data[len..] + tail
  {
  }

  lemma AfterHead(s: seq<byte>, c: nat, b: byte, rest: seq<byte>)
    requires c + 1 <= |s| && s[c + 1..] == Clean([b] + rest)
    ensures c + 2 <= |s| && s[c + 2..] == Clean(rest)
  {
    CleanAll([b] + rest);
    CleanAll(rest);
    assert ([b] + rest)[1..] == rest;
    assert s[c + 2..] == s[c + 1..][1..];
  }

  /** A byte that ends a line; a CR does so only when the reader watches for it. */
  predicate IsDelimiter(crToo: bool, b: byte) { b == LF || (crToo && b == CR) }

  /** Bytes up to the first delimiter, or all of them. */
  function ToFirst(crToo: bool, s: seq<byte>): (n: nat)
    ensures n <= |s| && Unbroken(crToo, s, n)
    ensures n < |s| ==> IsDelimiter(crToo, s[n])
  {
    if s == [] || IsDelimiter(crToo, s[0]) then 0 else 1 + ToFirst(crToo, s[1..])
  }

  predicate Unbroken(crToo: bool, s: seq<byte>, t: nat) {
    t <= |s| && forall i :: 0 <= i < t ==> !IsDelimiter(crToo, s[i])
  }

  /** Whether CR ends lines, and whether a pair of CRs was met. */
  datatype Mode = Mode(sdl: bool, doubleCR: bool)

  /** How many bytes a line break takes, and the mode from then on. */
  datatype Break = Break(len: nat, mode: Mode)

  /** The byte at a place; there is none behind the end. */
  function At(s: seq<byte>, i: nat): Option<byte> { if i < |s| then Some(s[i]) else None }

  /** A CR before `next`: two CRs belong together, so do CR and LF unless CR alone ends lines, and a CR before anything
      else shows that it does. */
  function AfterCr(mode: Mode, next: Option<byte>): Break {
    if next == Some(CR) then Break(2, Mode(true, true))
    else if next == Some(LF) then Break(if mode.sdl then 1 else 2, mode)
    else Break(1, mode.(sdl := true))
  }

  /** The line break that starts with `first` and may go on with the next two bytes: an LF takes a CR behind it along. */
  function BreakOf(mode: Mode, first: byte, second: Option<byte>, third: Option<byte>): Break {
    if second == None then Break(1, mode)
    else if first == CR then AfterCr(mode, second)
    else if second == Some(CR) then var b := AfterCr(mode, third); Break(b.len + 1, b.mode)
    else Break(1, mode)
  }

  predicate MayPair(next: Option<byte>) { next.Some? && IsBreak(next.value) }

  /** The most bytes that may belong to such a line break. */
  function BreakRoom(first: byte, second: Option<byte>, third: Option<byte>): nat {
    if !MayPair(second) || (first == LF && second == Some(LF)) then 1
    else if first == LF && MayPair(third) then 3
    else 2
  }

  /** Pairing stays within that room and never turns the mode off. */
  lemma BreakBounds(mode: Mode, first: byte, second: Option<byte>, third: Option<byte>)
    requires IsBreak(first)
    ensures var b := BreakOf(mode, first, second, third);
      && 1 <= b.len <= BreakRoom(first, second, third)
      && (mode.sdl ==> b.mode.sdl)
    ensures BreakOf(mode, first, second, None).len <= BreakRoom(first, second, third)
  {
  }

  /** Length of the first line of `s`, with its delimiter and the break bytes that may be paired with it. */
  function LineLen(crToo: bool, s: seq<byte>): nat {
    var n := ToFirst(crToo, s);
    if n == |s| then n else n + BreakRoom(s[n], At(s, n + 1), At(s, n + 2))
  }

  /** From wherever reading goes on, the line fits in `room` bytes. */
  ghost predicate Fits(crToo: bool, s: seq<byte>, room: nat) {
    LineLen(crToo, s) <= room && (s != [] ==> Fits(crToo, s[1..], room))
  }

  lemma {:induction false} ToFirstSkip(crToo: bool, s: seq<byte>, pos: nat)
    requires Unbroken(crToo, s, pos)
    ensures ToFirst(crToo, s) == pos + ToFirst(crToo, s[pos..])
  {
    if pos == 0 {
      assert s[pos..] == s;
    } else {
      assert !IsDelimiter(crToo, s[0]);
      assert s[1..][pos - 1..] == s[pos..];
      ToFirstSkip(crToo, s[1..], pos - 1);
    }
  }

  /** Text without delimiters in front only lengthens the line. */
  lemma LineLenRest(crToo: bool, s: seq<byte>, pos: nat)
    requires Unbroken(crToo, s, pos)
    ensures LineLen(crToo, s) == pos + LineLen(crToo, s[pos..])
  {
    ToFirstSkip(crToo, s, pos);
  }

  /** When CR ends lines too they only get shorter. */
  lemma LineLenMode(s: seq<byte>)
    ensures LineLen(true, s) <= LineLen(false, s)
  {
    var n, m := ToFirst(true, s), ToFirst(false, s);
    assert m < n ==> IsDelimiter(true, s[m]);
    assert n < m ==> s[n] == CR;
  }

  lemma {:induction false} FitsMode(s: seq<byte>, room: nat)
    requires Fits(false, s, room)
    ensures Fits(true, s, room)
  {
    LineLenMode(s);
    if s != [] { FitsMode(s[1..], room); }
  }

  lemma LineStart(crToo: bool, s: seq<byte>, i: nat) returns (j: nat)
    requires i <= |s|
    ensures j <= i && (j == 0 || IsDelimiter(crToo, s[j - 1])) && Unbroken(crToo, s[j..], i - j)
  {
    j := i;
    while j > 0 && !IsDelimiter(crToo, s[j - 1])
      invariant j <= i && forall k :: j <= k < i ==> !IsDelimiter(crToo, s[k])
    {
      j := j - 1;
    }
  }

  /** It is enough to look at the starts of the lines. */
  lemma FitsLines(crToo: bool, s: seq<byte>, room: nat)
    requires forall i :: 0 <= i < |s| && (i == 0 || IsDelimiter(crToo, s[i - 1])) ==> LineLen(crToo, s[i..]) <= room
    ensures Fits(crToo, s, room)
  {
    FitsTail(crToo, s, 0, room);
    assert s[0..] == s;
  }

  lemma {:induction false} FitsTail(crToo: bool, s: seq<byte>, i: nat, room: nat)
    requires i <= |s|
    requires forall k :: 0 <= k < |s| && (k == 0 || IsDelimiter(crToo, s[k - 1])) ==> LineLen(crToo, s[k..]) <= room
    ensures Fits(crToo, s[i..], room)
    decreases |s| - i
  {
    FitsFrom(crToo, s, i, room);
    if i < |s| {
      FitsTail(crToo, s, i + 1, room);
      assert s[i..][1..] == s[i + 1..];
    }
  }

  lemma FitsFrom(crToo: bool, s: seq<byte>, i: nat, room: nat)
    requires i <= |s|
    requires forall k :: 0 <= k < |s| && (k == 0 || IsDelimiter(crToo, s[k - 1])) ==> LineLen(crToo, s[k..]) <= room
    ensures LineLen(crToo, s[i..]) <= room
  {
    if i < |s| {
      var j := LineStart(crToo, s, i);
      LineLenRest(crToo, s[j..], i - j);
      assert s[j..][i - j..] == s[i..];
    }
  }

  lemma {:induction false} FitsSuffix(crToo: bool, s: seq<byte>, n: nat, room: nat)
    requires n <= |s| && Fits(crToo, s, room)
    ensures Fits(crToo, s[n..], room)
  {
    if n == 0 {
      assert s[n..] == s;
    } else {
      FitsSuffix(crToo, s[1..], n - 1, room);
      assert s[1..][n - 1..] == s[n..];
    }
  }

  /** The line break at `at` when the block at hand ends at `end`: a third byte is looked at only within the block. */
  function BreakAt(mode: Mode, s: seq<byte>, at: nat, end: nat): Break
    requires at < |s|
  {
    BreakOf(mode, s[at], At(s, at + 1), if at + 2 < end then At(s, at + 2) else None)
  }

  /** The rules by which break bytes are paired never take more than belongs to the line, nor more than one byte behind
      the block, and never turn the mode off. */
  lemma BreakWithinLine(crToo: bool, mode: Mode, s: seq<byte>, end: nat)
    requires ToFirst(crToo, s) < end <= |s|
    ensures var t := ToFirst(crToo, s);
            var b := BreakAt(mode, s, t, end);
      && 1 <= b.len && t + b.len <= LineLen(crToo, s) <= |s|
      && (t + 1 < end ==> t + b.len <= end)
      && (mode.sdl ==> b.mode.sdl)
  {
    var t := ToFirst(crToo, s);
    BreakBounds(mode, s[t], At(s, t + 1), if t + 2 < end then At(s, t + 2) else None);
    BreakBounds(mode, s[t], At(s, t + 1), At(s, t + 2));
  }

  // ----- Where the lines are cut -----

  function Min(a: nat, b: nat): nat { if a < b then a else b }

  /** The end of the block that holds place `t` of `n` bytes, when blocks of `size` bytes follow one that ends at `end`. */
  function BlockEnd(end: nat, size: nat, n: nat, t: nat): (e: nat)
    requires size > 0 && end <= n
    ensures end <= e <= n && (t < n ==> t < e)
    decreases n - end
  {
    if t < end || end == n then end else BlockEnd(Min(end + size, n), size, n, t)
  }

  /** A block ends at place `p`. */
  predicate IsEdge(end: nat, size: nat, n: nat, p: nat)
    requires size > 0 && end <= n
    decreases n - end
  {
    p == end || (end < p && end < n && IsEdge(Min(end + size, n), size, n, p))
  }

  /** How many bytes a call hands out, the mode then, and how many bytes of the block are left. */
  datatype Cut = Cut(n: nat, mode: Mode, left: nat)

  /** What one call does with the text `s` when the block at hand ends at `end` and the caller's buffer takes `full` bytes
      and one more: up to the first delimiter and its break, or to the end of the text. A line that has `full` bytes where
      a block ends is handed out without its break. */
  function CutFrom(crToo: bool, mode: Mode, s: seq<byte>, end: nat, size: nat, full: nat): Cut
    requires size > 0 && 0 < end <= |s|
    decreases |s| - end
  {
    var t := ToFirst(crToo, s);
    if t < end then CutAt(crToo, mode, s, end, size)
    else if end == full then Cut(full, mode, Min(size, |s| - full))
    else if full < end then Cut(full + 1, mode, end - (full + 1))
    else if end == |s| then Cut(|s|, mode, 0)
    else CutFrom(crToo, mode, s, Min(end + size, |s|), size, full)
  }

  /** The cut at the first delimiter, in a block that ends at `end`; at the very end of a block the next is read at once. */
  function CutAt(crToo: bool, mode: Mode, s: seq<byte>, end: nat, size: nat): Cut
    requires ToFirst(crToo, s) < end <= |s|
  {
    BreakWithinLine(crToo, mode, s, end);
    var t := ToFirst(crToo, s);
    var b := BreakAt(mode, s, t, end);
    Cut(t + b.len, b.mode, if t + 1 == end then Min(size, |s| - (t + b.len)) else end - (t + b.len))
  }

  /** The same with `left` bytes in the buffer; with none the next block is read first. */
  function NextCut(crToo: bool, mode: Mode, s: seq<byte>, left: nat, size: nat, maxsize: nat): Cut
    requires size > 0 && s != [] && left <= |s| && maxsize >= 3
  {
    CutFrom(crToo, mode, s, if left == 0 then Min(size, |s|) else left, size, maxsize - 2)
  }

  lemma {:induction false} CutBounds(crToo: bool, mode: Mode, s: seq<byte>, end: nat, size: nat, full: nat)
    requires size > 0 && 0 < end <= |s| && full > 0
    ensures var c := CutFrom(crToo, mode, s, end, size, full);
      1 <= c.n <= |s| && c.left <= |s| - c.n && (mode.sdl ==> c.mode.sdl)
    ensures LineLen(crToo, s) <= full + 1 ==> CutFrom(crToo, mode, s, end, size, full).n <= full + 1
    decreases |s| - end
  {
    if ToFirst(crToo, s) < end {
      BreakWithinLine(crToo, mode, s, end);
    } else if end < full && end < |s| {
      CutBounds(crToo, mode, s, Min(end + size, |s|), size, full);
    }
  }

  lemma FirstIs(crToo: bool, s: seq<byte>, t: nat)
    requires Unbroken(crToo, s, t)
    ensures ToFirst(crToo, s) >= t
    ensures t < |s| && IsDelimiter(crToo, s[t]) ==> ToFirst(crToo, s) == t
  {
    ToFirstSkip(crToo, s, t);
    assert t < |s| ==> s[t..][0] == s[t];
  }

  /** A cut after `n` bytes, in `mode'` then, makes sense: no delimiter but in the break at its end, and a break is missing
      only at the end of the text or when `full` bytes were reached. */
  ghost predicate IsPiece(crToo: bool, s: seq<byte>, n: nat, full: nat, mode: Mode, mode': Mode) {
    var t := ToFirst(crToo, s);
    if t < n <= |s| then exists e :: t < e <= |s| && Break(n - t, mode') == BreakAt(mode, s, t, e)
    else n <= t && mode' == mode && (n == |s| || n >= full)
  }

  lemma {:induction false} CutIsPiece(crToo: bool, mode: Mode, s: seq<byte>, end: nat, size: nat, full: nat)
    requires size > 0 && 0 < end <= |s| && full > 0
    ensures var c := CutFrom(crToo, mode, s, end, size, full); IsPiece(crToo, s, c.n, full, mode, c.mode)
    decreases |s| - end
  {
    var t := ToFirst(crToo, s);
    if t < end {
      BreakWithinLine(crToo, mode, s, end);
      var b, c := BreakAt(mode, s, t, end), CutFrom(crToo, mode, s, end, size, full);
      assert Break(c.n - t, c.mode) == b;
    } else if end < full && end < |s| {
      CutIsPiece(crToo, mode, s, Min(end + size, |s|), size, full);
    }
  }

  /** The cut without regard to blocks. */
  function PlainCut(crToo: bool, mode: Mode, s: seq<byte>): (nat, Mode) {
    var t := ToFirst(crToo, s);
    if t == |s| then (t, mode)
    else
      var b := BreakOf(mode, s[t], At(s, t + 1), At(s, t + 2));
      (t + b.len, b.mode)
  }

  /** The line break at `t` is LF, CR and one more break byte that would belong to it, but lies behind the block. */
  predicate Straddles(sdl: bool, s: seq<byte>, t: nat, end: nat) {
    && t + 2 < |s| && end <= t + 2 && s[t] == LF && s[t + 1] == CR
    && (s[t + 2] == CR || (s[t + 2] == LF && !sdl))
  }

  /** Exactly when a block end does not matter to the cut of a line that fits: the line does not reach `full` bytes there
      before its break, and no line break of three bytes straddles it. */
  lemma {:induction false} EdgeMatters(crToo: bool, mode: Mode, s: seq<byte>, end: nat, size: nat, full: nat)
    requires size > 0 && 0 < end <= |s| && full > 0 && LineLen(crToo, s) <= full + 1
    ensures var c, t := CutFrom(crToo, mode, s, end, size, full), ToFirst(crToo, s);
      (c.n, c.mode) == PlainCut(crToo, mode, s) <==>
        && !(full <= t && full < |s| && IsEdge(end, size, |s|, full))
        && !Straddles(mode.sdl, s, t, BlockEnd(end, size, |s|, t))
    decreases |s| - end
  {
    var t := ToFirst(crToo, s);
    if t < |s| { BreakWithinLine(crToo, mode, s, |s|); }
    if t < end {
      BreakWithinLine(crToo, mode, s, end);
      SameBreak(mode, s, t, end);
    } else if end < full && end < |s| {
      EdgeMatters(crToo, mode, s, Min(end + size, |s|), size, full);
    }
  }

  lemma SameBreak(mode: Mode, s: seq<byte>, t: nat, end: nat)
    requires t < end <= |s|
    ensures BreakAt(mode, s, t, |s|) == BreakOf(mode, s[t], At(s, t + 1), At(s, t + 2))
    ensures var a, b := BreakAt(mode, s, t, end), BreakAt(mode, s, t, |s|);
      && ((t + a.len, a.mode) == (t + b.len, b.mode) <==> a == b)
      && (IsBreak(s[t]) ==> (a == b <==> !Straddles(mode.sdl, s, t, end)))
  {
  }

  /** The lines a file is cut into. */
  function Pieces(watch: bool, mode: Mode, s: seq<byte>, left: nat, size: nat, maxsize: nat): seq<seq<byte>>
    requires size > 0 && left <= |s| && maxsize >= 3
    decreases |s|
  {
    if s == [] then []
    else
      var c := NextCut(watch || mode.sdl, mode, s, left, size, maxsize);
      CutBounds(watch || mode.sdl, mode, s, if left == 0 then Min(size, |s|) else left, size, maxsize - 2);
      [s[..c.n]] + Pieces(watch, c.mode, s[c.n..], c.left, size, maxsize)
  }

  /** Nothing is lost, nothing is invented, and every line fits the caller's buffer. */
  lemma {:induction false} PiecesCover(watch: bool, mode: Mode, s: seq<byte>, left: nat, size: nat, maxsize: nat)
    requires size > 0 && left <= |s| && maxsize >= 3 && 0 !in s && Fits(watch || mode.sdl, s, maxsize - 1)
    ensures Flatten(Pieces(watch, mode, s, left, size, maxsize)) == s
    ensures GoodLines(Pieces(watch, mode, s, left, size, maxsize), maxsize)
    decreases |s|
  {
    if s != [] {
      var c := NextCut(watch || mode.sdl, mode, s, left, size, maxsize);
      CutFits(watch, mode, s, left, size, maxsize);
      PiecesCover(watch, c.mode, s[c.n..], c.left, size, maxsize);
      FlattenFirst(s, c.n, Pieces(watch, c.mode, s[c.n..], c.left, size, maxsize), maxsize);
    }
  }

  lemma FlattenFirst(s: seq<byte>, n: nat, lines: seq<seq<byte>>, maxsize: nat)
    requires 1 <= n <= |s| && n < maxsize && 0 !in s && Flatten(lines) == s[n..] && GoodLines(lines, maxsize)
    ensures Flatten([s[..n]] + lines) == s && GoodLines([s[..n]] + lines, maxsize)
  {
    assert s == s[..n] + s[n..];
    assert ([s[..n]] + lines)[1..] == lines;
    assert GoodLine(s[..n], maxsize);
  }

  /** A cut leaves something to go on with: the lines behind it fit in the mode it ends in. */
  lemma CutFits(watch: bool, mode: Mode, s: seq<byte>, left: nat, size: nat, maxsize: nat)
    requires size > 0 && s != [] && left <= |s| && maxsize >= 3 && Fits(watch || mode.sdl, s, maxsize - 1)
    ensures var c := NextCut(watch || mode.sdl, mode, s, left, size, maxsize);
      && 1 <= c.n <= |s| && c.n < maxsize && c.left <= |s| - c.n
      && Fits(watch || c.mode.sdl, s[c.n..], maxsize - 1)
  {
    var crToo := watch || mode.sdl;
    var c := NextCut(crToo, mode, s, left, size, maxsize);
    CutBounds(crToo, mode, s, if left == 0 then Min(size, |s|) else left, size, maxsize - 2);
    FitsSuffix(crToo, s, c.n, maxsize - 1);
    FitsLater(crToo, watch || c.mode.sdl, s[c.n..], maxsize - 1);
  }

  /** LF, CR, LF is one line break, or a break and a line of its own when a block ends behind the CR. */
  lemma EdgeExample()
    ensures Pieces(false, Mode(false, false), [LF, CR, LF], 0, 8191, 100) == [[LF, CR, LF]]
    ensures Pieces(false, Mode(false, false), [LF, CR, LF], 0, 2, 100) == [[LF, CR], [LF]]
  {
    var mode, s := Mode(false, false), [LF, CR, LF];
    assert ToFirst(false, s) == 0 && ToFirst(true, [LF]) == 0;
    assert BlockEnd(3, 8191, 3, 0) == 3 && BlockEnd(2, 2, 3, 0) == 2 && BlockEnd(1, 2, 1, 0) == 1;
    assert NextCut(false, mode, s, 0, 8191, 100) == Cut(3, mode, 0);
    assert NextCut(false, mode, s, 0, 2, 100) == Cut(2, Mode(true, false), 0);
    assert s[3..] == [] && s[2..] == [LF] && s[..2] == [LF, CR] && s[..3] == s;
    assert NextCut(true, Mode(true, false), [LF], 0, 2, 100) == Cut(1, Mode(true, false), 0);
    assert [LF][1..] == [] && [LF][..1] == [LF];
    assert Pieces(false, Mode(true, false), [LF], 0, 2, 100) == [[LF]];
  }

  /** Once CR ends lines it goes on doing so, and lines that fit go on fitting. */
  lemma FitsLater(crToo: bool, crToo': bool, s: seq<byte>, room: nat)
    requires (crToo ==> crToo') && Fits(crToo, s, room)
    ensures Fits(crToo', s, room)
  {
    if crToo != crToo' { FitsMode(s, room); }
  }

  lemma Joined(s: seq<byte>, pos: nat, k: nat)
    requires pos + k <= |s|
    ensures s[..pos] + s[pos..][..k] == s[..pos + k] && s[pos..][k..] == s[pos + k..]
  {
  }

  lemma BreakShift(mode: Mode, s: seq<byte>, pos: nat, c: nat, avail: nat)
    requires pos + c < |s|
    ensures BreakAt(mode, s[pos..], c, avail) == BreakAt(mode, s, pos + c, pos + avail)
  {
  }

  /** A string that a call may hand out: not empty, no NUL in it, and short enough for the caller's buffer. */
  predicate GoodLine(line: seq<byte>, maxsize: nat) {
    1 <= |line| < maxsize && 0 !in line
  }

  ghost predicate GoodLines(lines: seq<seq<byte>>, maxsize: nat) {
    forall i :: 0 <= i < |lines| ==> GoodLine(lines[i], maxsize)
  }
}
