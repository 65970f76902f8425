/** The block-buffered line reader: one buffer of file data, one byte of lookahead past a block, push-back of
    that byte, and line ends that may be LF, CR or pairs of them. */
module LineReader {
  import opened Common
  import opened LineCuts

  class Reader {
    /** Bytes read from the file at once: 8191 in the program. */
    const blockSize: nat
    const sdlWatch: bool
    const buffer: array<byte>
    /** The part of the file not yet read, with a pushed-back byte in front. */
    var stream: seq<byte>
    var start: nat
    var end: nat
    var fileEnd: bool
    var ffEof: bool
    var sdlMode: bool
    var doubleCR: bool

    /** A consistent buffer between calls; the byte of lookahead is not in it. */
    ghost predicate Valid()
      reads this, buffer
    {
      Loaded() && (!fileEnd ==> end < blockSize)
    }

    /** A consistent buffer, possibly with a byte of lookahead at its end. */
    ghost predicate Loaded()
      reads this, buffer
    {
      && blockSize > 0 && buffer.Length == blockSize + 5
      && start <= end + 1 && end <= blockSize
      && (!ffEof ==> buffer[end + 1] == 0)
      && (forall i :: start <= i <= end ==> buffer[i] != 0)
      && (fileEnd ==> stream == [])
      && (ffEof ==> fileEnd && start == end + 1)
    }

    /** What is still to be handed out. */
    ghost function Remaining(): seq<byte>
      requires Loaded()
      reads this, buffer
    {
      buffer[start..end + 1] + Clean(stream)
    }

    /** How many bytes of the block are left. */
    ghost function Buffered(): nat
      requires Loaded()
      reads this, buffer
    {
      end + 1 - start
    }

    /** The byte at a place of the buffer; there is none behind the end. */
    ghost function Seen(i: nat): Option<byte>
      requires end < buffer.Length
      reads this, buffer
    {
      if i <= end then Some(buffer[i]) else None
    }

    ghost function CurrentMode(): Mode
      reads this
    {
      Mode(sdlMode, doubleCR)
    }

    constructor (file: seq<byte>, blockSize: nat, sdlWatch: bool, sdlMode: bool)
      requires blockSize > 0
      ensures Valid() && Remaining() == Clean(file) && Buffered() == 0 && !ffEof && fresh(buffer)
      ensures this.blockSize == blockSize && this.sdlWatch == sdlWatch && CurrentMode() == Mode(sdlMode, false)
    {
      this.blockSize, this.sdlWatch, this.sdlMode, doubleCR := blockSize, sdlWatch, sdlMode, false;
      buffer := new byte[blockSize + 5](i => 0);
      stream := file;
      end, start := 0, 1;
      fileEnd, ffEof := false, false;
    }

    /** Replaces the buffer by the next block of the file. */
    method GetNewBlock() returns (bs: nat)
      requires Loaded()
      modifies this`stream, this`start, this`end, this`fileEnd, this`ffEof, buffer
      ensures Valid()
      ensures bs == if old(fileEnd) then 0 else Min(blockSize, |old(stream)|)
      ensures bs > 0 ==> !ffEof && Buffered() == bs && Remaining() == Clean(old(stream))
      ensures bs == 0 && old(fileEnd) ==> ffEof && start > end && stream == []
      ensures bs == 0 && !old(fileEnd) ==>
        stream == [] && fileEnd && ffEof == old(ffEof) && start == old(start) && end == old(end) && buffer[..] == old(buffer[..])
    {
      if fileEnd {
        end, start, ffEof := 0, 1, true;
        return 0;
      }
      bs := if |stream| < blockSize then |stream| else blockSize;
      var block, rest := stream[..bs], stream[bs..];
      assert stream == block + rest;
      CleanAppend(block, rest);
      stream := rest;
      if bs < blockSize {
        fileEnd := true;
      }
      if bs > 0 {
        FillBuffer(block);
        start, end := 0, bs - 1;
        assert buffer[start..end + 1] == Clean(block);
      }
    }

    /** Puts a block into the buffer, NULs turned into spaces, with a NUL after it. */
    method FillBuffer(block: seq<byte>)
      requires |block| < buffer.Length
      modifies buffer
      ensures buffer[..|block|] == Clean(block) && buffer[|block|] == 0
      ensures forall k :: 0 <= k < |block| ==> buffer[k] != 0
    {
      for i := 0 to |block|
        invariant forall k :: 0 <= k < i ==> buffer[k] == if block[k] == 0 then SPACE else block[k]
      {
        buffer[i] := block[i];
        if buffer[i] == 0 {
          buffer[i] := SPACE;
        }
      }
      buffer[|block|] := 0;
      CleanAll(block);
    }

    /** Looks for the first delimiter in the buffer. */
    method FindDelimiter(crToo: bool) returns (found: bool, at: nat)
      requires Loaded() && !ffEof
      ensures found ==> start <= at <= end && IsDelimiter(crToo, buffer[at])
      ensures forall i :: start <= i < (if found then at else end + 1) ==> !IsDelimiter(crToo, buffer[i])
    {
      at := start;
      while buffer[at] != 0
        invariant start <= at <= end + 1
        invariant forall i :: start <= i < at ==> !IsDelimiter(crToo, buffer[i])
        decreases end + 1 - at
      {
        if IsDelimiter(crToo, buffer[at]) {
          return true, at;
        }
        at := at + 1;
      }
      found := false;
    }

    /** Puts one byte past the end of the block. */
    method AppendByte(c: byte)
      requires Valid() && !ffEof && !fileEnd && c != 0
      modifies this`end, buffer
      ensures Loaded() && end == old(end) + 1
      ensures buffer[start..end + 1] == old(buffer[start..end + 1]) + [c]
      ensures forall i :: start <= i <= old(end) ==> buffer[i] == old(buffer[i])
    {
      end := end + 1;
      buffer[end] := c;
      buffer[end + 1] := 0;
    }

    /** If the delimiter at `at` is the last byte of the block, reads one more byte of the file to look at.
        Returns that byte, or -1 if none was read. */
    method LookAhead(at: nat) returns (nextchar: int)
      requires Valid() && !ffEof && start <= at <= end
      modifies this`stream, this`end, this`fileEnd, buffer
      ensures Loaded() && -1 <= nextchar < 256 && Remaining() == old(Remaining())
      ensures forall i :: start <= i <= at ==> buffer[i] == old(buffer[i])
      ensures nextchar == -1 ==> Valid() && end == old(end) && (at == end ==> stream == [])
      ensures nextchar != -1 ==> at == old(end) && end == at + 1 && !fileEnd && old(stream) == [nextchar] + stream
      ensures nextchar != -1 ==> old(Remaining())[at - start + 1..] == Clean(old(stream))
    {
      nextchar := -1;
      if !fileEnd && at + 1 > end {
        if stream == [] {
          fileEnd := true;
        } else {
          nextchar := ReadByte();
        }
      }
    }

    /** Reads one byte of the file into the buffer, past its end. */
    method ReadByte() returns (nextchar: byte)
      requires Valid() && !ffEof && !fileEnd && stream != [] && start <= end
      modifies this`stream, this`end, buffer
      ensures Loaded() && Remaining() == old(Remaining()) && end == old(end) + 1
      ensures forall i :: start <= i <= old(end) ==> buffer[i] == old(buffer[i])
      ensures old(stream) == [nextchar] + stream
    {
      nextchar := stream[0];
      var c: byte := if nextchar == 0 then SPACE else nextchar;
      ghost var data, file := buffer[start..end + 1], stream;
      MoveHead(data, file, c);
      stream := stream[1..];
      AppendByte(c);
      assert Remaining() == (data + [c]) + Clean(stream) by {
        assert buffer[start..end + 1] == data + [c];
      }
    }

    /** Decides how many break bytes at the delimiter belong together, and whether CR ends lines from now on. */
    method PairBreak(at: nat) returns (last: nat)
      requires Loaded() && !ffEof && start <= at <= end && IsBreak(buffer[at])
      modifies this`sdlMode, this`doubleCR
      ensures at <= last <= end
      ensures Break(last - at + 1, CurrentMode()) == BreakOf(old(CurrentMode()), buffer[at], Seen(at + 1), Seen(at + 2))
    {
      last := at;
      if last + 1 <= end {
        if buffer[last] == LF {
          if buffer[last + 1] == CR {
            last := last + 1;
          }
        }
        if buffer[last] == CR {
          if buffer[last + 1] == CR {
            doubleCR, sdlMode := true, true;
            last := last + 1;
          } else if buffer[last + 1] == LF {
            if !sdlMode {
              last := last + 1;
            }
          } else {
            sdlMode := true;
          }
        }
      }
    }

    /** The same in terms of what is still to be handed out. */
    lemma PairedBreak(at: nat, mode: Mode, avail: nat)
      requires Loaded() && start <= at <= end && (at == end ==> stream == [])
      requires at + 2 <= end <==> at - start + 2 < avail
      ensures at - start < |Remaining()|
      ensures BreakOf(mode, buffer[at], Seen(at + 1), Seen(at + 2)) == BreakAt(mode, Remaining(), at - start, avail)
    {
      var s, c := Remaining(), at - start;
      assert forall i :: 0 <= i < end + 1 - start ==> s[i] == buffer[start + i];
      assert At(s, c + 1) == Seen(at + 1);
    }

    /** Copies `len` bytes from the read position to the line and passes them. */
    method CopyOut(line: array<byte>, pos: nat, len: nat)
      requires Loaded() && len <= end + 1 - start && pos + len < line.Length && line != buffer
      modifies line, this`start
      ensures start == old(start) + len && Loaded() && Remaining() == old(Remaining())[len..]
      ensures len <= |old(Remaining())| && line[..pos + len] == old(line[..pos]) + old(Remaining())[..len]
      ensures line[pos + len] == 0
    {
      ghost var data, s := buffer[start..end + 1], Remaining();
      Split(data, Clean(stream), len);
      assert s[..len] == buffer[start..start + len] && data[len..] == buffer[start + len..end + 1];
      ghost var front := line[..pos] + s[..len];
      CopyBytes(buffer, start, line, pos, len);
      assert line[..pos + len] == front;
      line[pos + len] := 0;
      assert line[..pos + len] == front;
      start := start + len;
      assert Remaining() == s[len..];
    }

    /** After a line was handed out: a byte of lookahead is part of it or is pushed back, and the next block is read. */
    method DropLookAhead(extra: bool, nextchar: byte, ghost s: seq<byte>, ghost c: nat)
      requires Loaded() && !ffEof && !fileEnd
      requires c < |s| && Clean([nextchar] + stream) == s[c + 1..]
      modifies this`stream, this`start, this`end, this`fileEnd, this`ffEof, buffer
      ensures Valid()
      ensures !extra ==> Remaining() == s[c + 1..]
      ensures extra && old(start == end + 1) ==> c + 2 <= |s| && Remaining() == s[c + 2..]
      ensures !extra || old(start == end + 1) ==> Buffered() == Min(blockSize, |Remaining()|)
    {
      AfterHead(s, c, nextchar, stream);
      if !extra {
        stream := [nextchar] + stream;
      }
      var bs := GetNewBlock();
    }

    /** Settles how many bytes of a line that ends at the delimiter `at` are handed out: the line with its break `b`,
        but at most `max + 1`. */
    method MeasureLine(max: nat, at: nat, ghost s: seq<byte>, ghost c: nat, ghost b: Break)
      returns (len: nat, extra: bool, nextchar: int)
      requires Valid() && !ffEof && start <= at <= end && IsBreak(buffer[at])
      requires s == Remaining() && c == at - start < |s| && b == BreakAt(CurrentMode(), s, c, Buffered())
      modifies this`stream, this`end, this`fileEnd, this`sdlMode, this`doubleCR, buffer
      ensures Loaded() && Remaining() == s && len <= Buffered()
      ensures CurrentMode() == b.mode && b.len >= 1
      ensures len == (if c + b.len <= max then c + b.len else max + 1) && (extra <==> b.len > 1)
      ensures if nextchar == -1 then
          Valid() && Buffered() == old(Buffered()) && (c + 1 == Buffered() ==> |s| == c + 1)
        else
          && 0 <= nextchar < 256 && !fileEnd && Buffered() == c + 2 && c + 1 == old(Buffered())
          && Clean([nextchar] + stream) == s[c + 1..]
    {
      ghost var avail := Buffered();
      nextchar := LookAhead(at);
      var last := FindEnd(at, avail);
      assert b.len == last - at + 1;
      extra := last > at;
      len := (if last - start < max then last - start else max) + 1;
    }

    /** Decides where the line break that starts at `at` ends. */
    method FindEnd(at: nat, ghost avail: nat) returns (last: nat)
      requires Loaded() && !ffEof && start <= at <= end && IsBreak(buffer[at]) && (at == end ==> stream == [])
      requires at + 2 <= end <==> at - start + 2 < avail
      modifies this`sdlMode, this`doubleCR
      ensures Loaded() && Remaining() == old(Remaining()) && at <= last <= end && at - start < |Remaining()|
      ensures Break(last - at + 1, CurrentMode()) == BreakAt(old(CurrentMode()), Remaining(), at - start, avail)
    {
      PairedBreak(at, CurrentMode(), avail);
      last := PairBreak(at);
    }

    /** Hands out a line that ends at the delimiter `at`, with its break `b`, but at most `max + 1` bytes. */
    method TakeTerminated(line: array<byte>, pos: nat, max: nat, at: nat, ghost s: seq<byte>, ghost c: nat, ghost b: Break)
      returns (n: nat)
      requires Valid() && !ffEof && start <= at <= end && IsBreak(buffer[at])
      requires s == Remaining() && c == at - start < |s| && b == BreakAt(CurrentMode(), s, c, Buffered())
      requires pos + max + 1 < line.Length && line != buffer
      modifies this, buffer, line
      ensures CurrentMode() == b.mode && b.len >= 1
      ensures n == pos + (if c + b.len <= max then c + b.len else max + 1)
      ensures Valid() && line[n] == 0
      ensures n - pos <= |s| && line[..n] == old(line[..pos]) + s[..n - pos]
      ensures c + b.len <= max + 1 ==>
        && Remaining() == s[n - pos..]
        && Buffered() == if c + 1 == old(Buffered()) then Min(blockSize, |s| - (n - pos)) else old(Buffered()) - (n - pos)
    {
      var len, extra, nextchar;
      len, extra, nextchar := MeasureLine(max, at, s, c, b);
      HandOut(line, pos, len, extra, nextchar, s, c);
      n := pos + len;
    }

    /** Copies the line that was measured and settles what was looked at. */
    method HandOut(line: array<byte>, pos: nat, len: nat, extra: bool, nextchar: int, ghost s: seq<byte>, ghost c: nat)
      requires Loaded() && !ffEof && len <= end + 1 - start && pos + len < line.Length && line != buffer
      requires Remaining() == s
      requires nextchar == -1 ==> Valid()
      requires nextchar != -1 ==>
        && 0 <= nextchar < 256 && !fileEnd && end == start + c + 1
        && Clean([nextchar] + stream) == s[c + 1..]
      requires len > 0
      modifies this`stream, this`start, this`end, this`fileEnd, this`ffEof, buffer, line
      ensures Valid() && len <= |s| && line[..pos + len] == old(line[..pos]) + s[..len] && line[pos + len] == 0
      ensures len == (if extra then c + 2 else c + 1) || nextchar == -1 ==>
        && Remaining() == s[len..]
        && Buffered() == if nextchar == -1 then old(Buffered()) - len else Min(blockSize, |s| - len)
    {
      CopyOut(line, pos, len);
      Settle(extra, nextchar, s, c, len);
    }

    /** After a line was handed out: what was looked at is used or given back. */
    method Settle(extra: bool, nextchar: int, ghost s: seq<byte>, ghost c: nat, ghost len: nat)
      requires Loaded() && !ffEof && len <= |s|
      requires nextchar == -1 ==> Valid() && Remaining() == s[len..]
      requires nextchar != -1 ==>
        && 0 <= nextchar < 256 && !fileEnd && c < |s| && Clean([nextchar] + stream) == s[c + 1..]
        && (len == c + 2 ==> start == end + 1)
      modifies this`stream, this`start, this`end, this`fileEnd, this`ffEof, buffer
      ensures Valid()
      ensures len == (if extra then c + 2 else c + 1) || nextchar == -1 ==>
        && Remaining() == s[len..]
        && Buffered() == if nextchar == -1 then old(Buffered()) else Min(blockSize, |s| - len)
    {
      if nextchar != -1 {
        DropLookAhead(extra, nextchar, s, c);
      }
    }

    /** `pos` bytes of `s`, none of them a delimiter, are in the line and the rest is still to come. */
    ghost predicate Progress(line: array<byte>, pos: nat, crToo: bool, s: seq<byte>)
      reads this, buffer, line
    {
      && Valid() && pos < line.Length && Unbroken(crToo, s, pos)
      && line[..pos] == s[..pos] && Remaining() == s[pos..]
    }

    /** The last piece of a line: up to the break `b` at the delimiter `at`. */
    method FinishTerminated(line: array<byte>, pos: nat, max: nat, at: nat, crToo: bool, ghost s: seq<byte>, ghost b: Break)
      returns (n: nat)
      requires Progress(line, pos, crToo, s) && line != buffer && pos + max + 1 < line.Length
      requires !ffEof && start <= at <= end && IsBreak(buffer[at]) && pos + (at - start) < |s|
      requires b == BreakAt(CurrentMode(), s, pos + (at - start), pos + Buffered())
      modifies this, buffer, line
      ensures Valid() && pos < n <= pos + max + 1 && line[n] == 0 && n <= |s| && line[..n] == s[..n]
      ensures CurrentMode() == b.mode
      ensures var t, e := old(pos + (at - start)), old(pos + Buffered());
        t + b.len <= pos + max + 1 ==>
          && n == t + b.len && Remaining() == s[n..]
          && Buffered() == if t + 1 == e then Min(blockSize, |s| - n) else e - n
    {
      ghost var c, rest := at - start, s[pos..];
      BreakShift(CurrentMode(), s, pos, c, Buffered());
      n := TakeTerminated(line, pos, max, at, rest, c, b);
      Joined(s, pos, n - pos);
      assert line[..n] == s[..pos] + rest[..n - pos];
    }

    /** No delimiter in the buffer before offset `c`, so none in the text before that place. */
    lemma BufferUnbroken(pos: nat, c: nat, crToo: bool, s: seq<byte>)
      requires Loaded() && Unbroken(crToo, s, pos) && Remaining() == s[pos..] && start + c <= end + 1
      requires forall i :: start <= i < start + c ==> !IsDelimiter(crToo, buffer[i])
      ensures Unbroken(crToo, s, pos + c)
    {
      forall i | 0 <= i < pos + c ensures i < |s| && !IsDelimiter(crToo, s[i]) {
        if i >= pos {
          assert s[i] == Remaining()[i - pos] == buffer[start + (i - pos)];
        }
      }
    }

    /** The line is full: the last piece has no break. */
    method FinishFull(line: array<byte>, pos: nat, max: nat, crToo: bool, ghost s: seq<byte>) returns (n: nat)
      requires Progress(line, pos, crToo, s) && line != buffer && pos + max + 1 < line.Length
      requires end + 1 - start > max
      requires forall i :: start <= i <= end ==> !IsDelimiter(crToo, buffer[i])
      modifies this`start, line
      ensures Valid() && n == pos + max + 1 && line[n] == 0 && n <= |s| && line[..n] == s[..n]
      ensures Remaining() == s[n..] && Buffered() == old(Buffered()) - (max + 1)
    {
      BufferUnbroken(pos, max + 1, crToo, s);
      CopyOut(line, pos, max + 1);
      n := pos + max + 1;
      Joined(s, pos, max + 1);
    }

    /** The rest of the block goes into the line and the next block is read. */
    method PassBlock(line: array<byte>, pos: nat, max: nat, crToo: bool, ghost s: seq<byte>) returns (pos': nat)
      requires Progress(line, pos, crToo, s) && line != buffer && pos + max + 1 < line.Length
      requires !ffEof && end + 1 - start <= max
      requires start > end ==> fileEnd
      requires forall i :: start <= i <= end ==> !IsDelimiter(crToo, buffer[i])
      requires start > end ==> line[pos] == 0
      modifies this`start, this`stream, this`end, this`fileEnd, this`ffEof, buffer, line
      ensures pos' == pos + old(Buffered()) && (pos' == pos ==> ffEof)
      ensures Progress(line, pos', crToo, s) && line[pos'] == 0
      ensures pos' <= |s| && Buffered() == Min(blockSize, |s| - pos')
      ensures start > end ==> fileEnd
    {
      pos' := pos;
      if start <= end {
        var chars := end + 1 - start;
        BufferUnbroken(pos, chars, crToo, s);
        CopyOut(line, pos, chars);
        pos' := pos + chars;
        Joined(s, pos, chars);
      }
      RestOfFile();
      var bs := GetNewBlock();
    }

    lemma RestOfFile()
      requires Loaded() && start == end + 1
      ensures Remaining() == Clean(stream)
    {
    }

    /** Reads one line into `line`, which has room for `maxsize` bytes. Returns the length of the string left there,
        or -1 at the end of the file. */
    method FGets(line: array<byte>, maxsize: nat) returns (n: int)
      requires Valid() && 3 <= maxsize <= line.Length && line != buffer
      modifies this, buffer, line
      ensures Valid()
      ensures n == -1 <==> old(Remaining()) == []
      ensures n == -1 ==> Remaining() == [] && CurrentMode() == old(CurrentMode())
      ensures n != -1 ==> 1 <= n < maxsize && line[n] == 0 && n <= |old(Remaining())| && line[..n] == old(Remaining())[..n]
      ensures old(sdlMode) ==> sdlMode
      ensures n != -1 && LineLen(old(sdlWatch || sdlMode), old(Remaining())) < maxsize ==>
        && Remaining() == old(Remaining())[n..]
        && Cut(n, CurrentMode(), Buffered())
           == NextCut(old(sdlWatch || sdlMode), old(CurrentMode()), old(Remaining()), old(Buffered()), blockSize, maxsize)
    {
      ghost var s := Remaining();
      if ffEof {
        return -1;
      }
      var crToo := sdlWatch || sdlMode;
      if start > end {
        RestOfFile();
        var result := GetNewBlock();
        if result == 0 {
          line[0] := 0;
          return -1;
        }
      }
      n := FillLine(line, maxsize, crToo, s);
    }

    /** The loop that fills the line, from one block or several. */
    method FillLine(line: array<byte>, maxsize: nat, crToo: bool, ghost s: seq<byte>) returns (n: nat)
      requires Valid() && 3 <= maxsize <= line.Length && line != buffer
      requires start <= end && !ffEof && Remaining() == s
      modifies this, buffer, line
      ensures Valid() && 1 <= n < maxsize && line[n] == 0 && n <= |s| && line[..n] == s[..n]
      ensures old(sdlMode) ==> sdlMode
      ensures LineLen(crToo, s) < maxsize ==>
        && Remaining() == s[n..]
        && Cut(n, CurrentMode(), Buffered()) == CutFrom(crToo, old(CurrentMode()), s, old(Buffered()), blockSize, maxsize - 2)
    {
      var max: nat, pos: nat := maxsize - 2, 0;
      ghost var mode := CurrentMode();
      ghost var target := CutFrom(crToo, mode, s, Buffered(), blockSize, maxsize - 2);
      while max > 0 && !ffEof
        invariant pos + max == maxsize - 2 && Filling(line, pos, max, crToo, s, mode, target)
        decreases max, !ffEof
      {
        var done;
        done, n, pos, max := FillMore(line, pos, max, crToo, s, mode, target);
        if done {
          return;
        }
      }
      n := pos;
    }

    /** `pos` bytes are in the line, `max` more may come before a break, and `target` is the cut to be made. */
    ghost predicate Filling(line: array<byte>, pos: nat, max: nat, crToo: bool, s: seq<byte>, mode: Mode, target: Cut)
      reads this, buffer, line
    {
      && Progress(line, pos, crToo, s) && CurrentMode() == mode
      && (start > end ==> fileEnd) && (if pos > 0 then line[pos] == 0 else start <= end && !ffEof)
      && if max == 0 then target == Cut(pos, mode, Buffered())
         else 0 < pos + Buffered() <= |s| && target == CutFrom(crToo, mode, s, pos + Buffered(), blockSize, pos + max)
    }

    /** One turn of the loop: the line ends in this block, or the next one is read. */
    method FillMore(line: array<byte>, pos: nat, max: nat, crToo: bool, ghost s: seq<byte>, ghost mode: Mode, ghost target: Cut)
      returns (done: bool, n: nat, pos': nat, max': nat)
      requires Filling(line, pos, max, crToo, s, mode, target) && max > 0 && !ffEof
      requires pos + max + 1 < line.Length && line != buffer
      modifies this, buffer, line
      ensures !done ==>
        && pos' + max' == pos + max && Filling(line, pos', max', crToo, s, mode, target)
        && (max' < max || ffEof)
      ensures done ==> Filled(line, n, pos + max + 1, crToo, s, mode, target)
    {
      var found, at := FindFirst(line, pos, crToo, s);
      done, n, pos', max' := true, 0, pos, max;
      if found {
        n := FillEnd(line, pos, max, at, crToo, s, mode, target);
      } else if end + 1 - start > max {
        n := FillUp(line, pos, max, crToo, s, mode, target);
      } else {
        done := false;
        pos', max' := FillOn(line, pos, max, crToo, s, mode, target);
      }
    }

    /** Looks for the first delimiter of the text in the block at hand. */
    method FindFirst(ghost line: array<byte>, ghost pos: nat, crToo: bool, ghost s: seq<byte>) returns (found: bool, at: nat)
      requires Progress(line, pos, crToo, s) && !ffEof
      ensures found ==> start <= at <= end && IsBreak(buffer[at]) && ToFirst(crToo, s) == pos + (at - start)
      ensures !found ==> ToFirst(crToo, s) >= pos + Buffered() && forall i :: start <= i <= end ==> !IsDelimiter(crToo, buffer[i])
    {
      found, at := FindDelimiter(crToo);
      ghost var c := if found then at - start else Buffered();
      BufferUnbroken(pos, c, crToo, s);
      assert found ==> s[pos..][c] == buffer[at];
      FirstIs(crToo, s, pos + c);
    }

    /** `n` bytes of `s` were handed out, and that is the cut `target` if the line fits in `room` bytes. */
    ghost predicate Filled(line: array<byte>, n: nat, room: nat, crToo: bool, s: seq<byte>, mode: Mode, target: Cut)
      reads this, buffer, line
    {
      && Valid() && 1 <= n <= room && n < line.Length && line[n] == 0 && n <= |s| && line[..n] == s[..n]
      && (mode.sdl ==> sdlMode)
      && (LineLen(crToo, s) <= room ==> Remaining() == s[n..] && Cut(n, CurrentMode(), Buffered()) == target)
    }

    /** The line ends in the block at hand, and the cut is the one at its delimiter. */
    method FillEnd(line: array<byte>, pos: nat, max: nat, at: nat, crToo: bool, ghost s: seq<byte>, ghost mode: Mode, ghost target: Cut)
      returns (n: nat)
      requires Filling(line, pos, max, crToo, s, mode, target) && max > 0 && !ffEof
      requires pos + max + 1 < line.Length && line != buffer
      requires start <= at <= end && IsBreak(buffer[at]) && ToFirst(crToo, s) == pos + (at - start)
      modifies this, buffer, line
      ensures Filled(line, n, pos + max + 1, crToo, s, mode, target)
    {
      ghost var e := pos + Buffered();
      assert target == CutAt(crToo, mode, s, e, blockSize);
      BreakWithinLine(crToo, mode, s, e);
      n := FinishTerminated(line, pos, max, at, crToo, s, BreakAt(mode, s, pos + (at - start), e));
    }

    /** The line is full before it ends. */
    method FillUp(line: array<byte>, pos: nat, max: nat, crToo: bool, ghost s: seq<byte>, ghost mode: Mode, ghost target: Cut)
      returns (n: nat)
      requires Filling(line, pos, max, crToo, s, mode, target) && max > 0 && !ffEof
      requires pos + max + 1 < line.Length && line != buffer && Buffered() > max
      requires ToFirst(crToo, s) >= pos + Buffered() && forall i :: start <= i <= end ==> !IsDelimiter(crToo, buffer[i])
      modifies this`start, line
      ensures Filled(line, n, pos + max + 1, crToo, s, mode, target)
    {
      ghost var e := pos + Buffered();
      assert target == Cut(pos + max + 1, mode, e - (pos + max + 1));
      n := FinishFull(line, pos, max, crToo, s);
    }

    /** The whole block is part of the line. */
    method FillOn(line: array<byte>, pos: nat, max: nat, crToo: bool, ghost s: seq<byte>, ghost mode: Mode, ghost target: Cut)
      returns (pos': nat, max': nat)
      requires Filling(line, pos, max, crToo, s, mode, target) && max > 0 && !ffEof
      requires pos + max + 1 < line.Length && line != buffer && Buffered() <= max
      requires forall i :: start <= i <= end ==> !IsDelimiter(crToo, buffer[i])
      requires ToFirst(crToo, s) >= pos + Buffered()
      modifies this`start, this`stream, this`end, this`fileEnd, this`ffEof, buffer, line
      ensures pos' + max' == pos + max && Filling(line, pos', max', crToo, s, mode, target) && (max' < max || ffEof)
    {
      ghost var e := pos + Buffered();
      pos' := PassBlock(line, pos, max, crToo, s);
      max' := max - (pos' - pos);
      assert pos' == e && pos' + Buffered() == Min(e + blockSize, |s|);
    }
  }

  method CopyBytes(src: array<byte>, from: nat, dst: array<byte>, pos: nat, len: nat)
    requires src != dst && from + len <= src.Length && pos + len <= dst.Length
    modifies dst
    ensures dst[..pos + len] == old(dst[..pos]) + src[from..from + len]
  {
    for i := 0 to len
      invariant dst[..pos + i] == old(dst[..pos]) + src[from..from + i]
    {
      dst[pos + i] := src[from + i];
      assert dst[..pos + (i + 1)] == dst[..pos + i] + [src[from + i]];
      assert src[from..from + (i + 1)] == src[from..from + i] + [src[from + i]];
    }
  }

  /** One call for a caller whose buffer takes every line of the rest `s` of the text. */
  method ReadLine(r: Reader, line: array<byte>, maxsize: nat, ghost s: seq<byte>) returns (got: Option<seq<byte>>)
    requires 3 <= maxsize <= line.Length && line != r.buffer && r.Valid() && r.Remaining() == s
    requires LineLen(r.sdlWatch || r.sdlMode, s) < maxsize
    modifies r, r.buffer, line
    ensures r.Valid() && (got.None? <==> s == [])
    ensures r.Buffered() <= |r.Remaining()| && old(r.Buffered()) <= |s|
    ensures got.Some? ==>
      var k := NextCut(r.sdlWatch || old(r.sdlMode), old(r.CurrentMode()), s, old(r.Buffered()), r.blockSize, maxsize);
      && k.n <= |s| && got.value == s[..k.n] && r.Remaining() == s[k.n..]
      && r.CurrentMode() == k.mode && r.Buffered() == k.left
  {
    var n := r.FGets(line, maxsize);
    if n == -1 {
      return None;
    }
    return Some(line[..n]);
  }

  /** Reads a whole file line by line. The lines are those that the rules for cutting give; so nothing is lost, nothing is
      invented: for every file whose lines fit they are, put together, the file with its NULs turned into spaces. */
  method ReadFile(file: seq<byte>, blockSize: nat, sdlWatch: bool, sdlMode: bool, maxsize: nat) returns (lines: seq<seq<byte>>)
    requires blockSize > 0 && maxsize >= 3
    requires Fits(sdlWatch || sdlMode, Clean(file), maxsize - 1)
    ensures lines == Pieces(sdlWatch, Mode(sdlMode, false), Clean(file), 0, blockSize, maxsize)
    ensures Flatten(lines) == Clean(file)
    ensures GoodLines(lines, maxsize)
  {
    var r := new Reader(file, blockSize, sdlWatch, sdlMode);
    var line := new byte[maxsize];
    NoNul(file);
    PiecesCover(sdlWatch, Mode(sdlMode, false), Clean(file), 0, blockSize, maxsize);
    lines := ReadLines(r, line, maxsize, Clean(file));
  }

  /** The loop over the lines of a file. */
  method ReadLines(r: Reader, line: array<byte>, maxsize: nat, ghost s: seq<byte>) returns (lines: seq<seq<byte>>)
    requires 3 <= maxsize <= line.Length && line != r.buffer && r.Valid() && r.Remaining() == s && r.Buffered() <= |s|
    requires Fits(r.sdlWatch || r.sdlMode, s, maxsize - 1)
    modifies r, r.buffer, line
    ensures lines == Pieces(r.sdlWatch, old(r.CurrentMode()), s, old(r.Buffered()), r.blockSize, maxsize)
  {
    lines := [];
    ghost var rest, mode, left := s, r.CurrentMode(), r.Buffered();
    ghost var all := Pieces(r.sdlWatch, mode, s, left, r.blockSize, maxsize);
    while true
      invariant r.Valid() && rest == r.Remaining() && mode == r.CurrentMode() && left == r.Buffered() <= |rest|
      invariant Fits(r.sdlWatch || mode.sdl, rest, maxsize - 1)
      invariant lines + Pieces(r.sdlWatch, mode, rest, left, r.blockSize, maxsize) == all
      decreases |rest|
    {
      var got := ReadLine(r, line, maxsize, rest);
      if got.None? {
        return;
      }
      PieceTaken(r.sdlWatch, mode, rest, left, r.blockSize, maxsize, lines, all);
      lines := lines + [got.value];
      rest, mode, left := r.Remaining(), r.CurrentMode(), r.Buffered();
    }
  }

  /** One line has been taken off the text; the lines of the rest still fit. */
  lemma PieceTaken(watch: bool, mode: Mode, s: seq<byte>, left: nat, size: nat, maxsize: nat, lines: seq<seq<byte>>, all: seq<seq<byte>>)
    requires size > 0 && s != [] && left <= |s| && maxsize >= 3 && Fits(watch || mode.sdl, s, maxsize - 1)
    requires lines + Pieces(watch, mode, s, left, size, maxsize) == all
    ensures var k := NextCut(watch || mode.sdl, mode, s, left, size, maxsize);
      && 1 <= k.n <= |s| && k.left <= |s| - k.n
      && Fits(watch || k.mode.sdl, s[k.n..], maxsize - 1)
      && (lines + [s[..k.n]]) + Pieces(watch, k.mode, s[k.n..], k.left, size, maxsize) == all
  {
    var k := NextCut(watch || mode.sdl, mode, s, left, size, maxsize);
    CutFits(watch, mode, s, left, size, maxsize);
    Join(lines, [s[..k.n]], Pieces(watch, k.mode, s[k.n..], k.left, size, maxsize));
  }

  lemma NoNul(file: seq<byte>)
    ensures 0 !in Clean(file)
  {
    CleanAll(file);
  }
}
