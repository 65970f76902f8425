/** The string replacement engine: it sizes an output buffer, fills it segment by segment, and must give what
    one simple left-to-right scan gives. */
module StringReplace {
  import opened Common

  function Lower(c: char): char {
    if 'A' <= c <= 'Z' then (c as int + 32) as char else c
  }

  /** Two characters count alike when case does not matter if they are the same or the two cases of one ASCII letter. */
  lemma SameLetter(c: char, d: char)
    ensures Lower(c) == Lower(d) <==>
      c == d || ('A' <= c <= 'Z' && d as int == c as int + 32) || ('A' <= d <= 'Z' && c as int == d as int + 32)
  {
  }

  /** The text as it is compared: letters count alike when case does not matter. */
  function Fold(insensitive: bool, s: string): (r: string)
    ensures |r| == |s|
    ensures forall i :: 0 <= i < |s| ==> r[i] == if insensitive then Lower(s[i]) else s[i]
  {
    seq(|s|, i requires 0 <= i < |s| => if insensitive then Lower(s[i]) else s[i])
  }

  /** Where a text occurs in another: one mark for every place, the end included. */
  function Hits(hay: string, needle: string): (h: seq<bool>)
    ensures |h| == |hay| + 1
    ensures forall i :: 0 <= i <= |hay| ==> (h[i] <==> OccursAt(hay, needle, i))
  {
    seq(|hay| + 1, i requires 0 <= i => OccursAt(hay, needle, i))
  }

  /** The first mark at or after `from`. */
  function First(hits: seq<bool>, from: nat): (r: Option<nat>)
    requires from < |hits|
    ensures r.Some? ==> from <= r.value < |hits| && hits[r.value]
    decreases |hits| - from
  {
    if hits[from] then Some(from)
    else if from + 1 == |hits| then None
    else First(hits, from + 1)
  }

  /** No mark is missed. */
  lemma {:induction false} FindsFirst(hits: seq<bool>, from: nat, i: nat)
    requires from <= i < |hits| && hits[i]
    ensures First(hits, from).Some? && First(hits, from).value <= i
    decreases i - from
  {
    if !hits[from] {
      FindsFirst(hits, from + 1, i);
    }
  }

  /** Occurrences of a text of length `len` in a text of length `n`. */
  predicate Marks(hits: seq<bool>, n: nat, len: nat) {
    |hits| == n + 1 && len > 0 && forall i :: 0 <= i <= n && hits[i] ==> i + len <= n
  }

  /** What is asked for. Empty texts to look for before or after count as not given; `number` 0 means all. */
  datatype Request = Request(
    source: string, searchfor: string, replacewith: string,
    preexist: Option<string>, postexist: Option<string>,
    number: nat, insensitive: bool)
  {
    /** Where `text` occurs in the source. */
    function HitsOf(text: string): (h: seq<bool>)
      ensures text != "" ==> Marks(h, |source|, |text|)
    {
      Hits(Fold(insensitive, source), Fold(insensitive, text))
    }
  }

  function Given(t: Option<string>): Option<string> {
    if t.Some? && t.value == "" then None else t
  }

  /** The last of the occurrences that do not overlap when taken from the left. */
  function LastApart(hits: seq<bool>, n: nat, len: nat, from: nat): (r: Option<nat>)
    requires Marks(hits, n, len) && from <= n
    decreases n - from
  {
    match First(hits, from)
    case None => None
    case Some(p) =>
      var q := LastApart(hits, n, len, p + len);
      if q.Some? then q else Some(p)
  }

  /** Only an occurrence that overlaps it can start after that one. */
  lemma {:induction false} LastApartIsLast(hits: seq<bool>, n: nat, len: nat, from: nat, i: nat)
    requires Marks(hits, n, len) && from <= i <= n && hits[i]
    ensures var r := LastApart(hits, n, len, from);
            r.Some? && r.value <= n && hits[r.value] && i < r.value + len
    decreases n - from
  {
    FindsFirst(hits, from, i);
    var next := First(hits, from).value + len;
    if i >= next {
      LastApartIsLast(hits, n, len, next, i);
    } else if LastApart(hits, n, len, next).Some? {
      LastApartIsLast(hits, n, len, next, First(hits, next).value);
    }
  }

  /** The last mark. */
  function Last(hits: seq<bool>): (r: Option<nat>)
    ensures r.Some? ==> r.value < |hits| && hits[r.value] && forall i :: r.value < i < |hits| ==> !hits[i]
    ensures r.None? ==> forall i :: 0 <= i < |hits| ==> !hits[i]
  {
    if hits == [] then None
    else if hits[|hits| - 1] then Some(|hits| - 1)
    else Last(hits[..|hits| - 1])
  }

  /** In "aaa" the last "aa" starts at 1, but the one that counts starts at 0. */
  lemma LastApartMissesOverlap()
    ensures var h := Hits("aaa", "aa");
      Marks(h, 3, 2) && LastApart(h, 3, 2, 0) == Some(0) && Last(h) == Some(1)
  {
    var h := Hits("aaa", "aa");
    assert OccursAt("aaa", "aa", 0) && OccursAt("aaa", "aa", 1) && h[0] && h[1];
    assert !OccursAt("aaa", "aa", 2) && !h[2] && !h[3];
    assert First(h, 0) == Some(0);
    assert First(h, 2) == None;
  }

  /** An occurrence at `i` lies between the given places. */
  predicate Qualifies(pre: Option<nat>, post: Option<nat>, i: nat) {
    (pre.Some? ==> pre.value < i) && (post.Some? ==> i < post.value)
  }

  /** A replacement with its places settled: the text, where occurrences of length `len` are, what replaces them,
      and between which places they qualify. */
  datatype Job = Job(s: string, hits: seq<bool>, len: nat, with: string, pre: Option<nat>, post: Option<nat>) {
    predicate Ok() { Marks(hits, |s|, len) }

    predicate Wanted(i: nat) { i < |hits| && hits[i] && Qualifies(pre, post, i) }
  }

  /** The simple replacement: one scan from the left that replaces qualifying occurrences, at most `limit` of them,
      and steps over the others. */
  function Scan(j: Job, limit: Option<nat>, i: nat): string
    requires j.Ok() && i <= |j.s|
    decreases |j.s| - i
  {
    if i == |j.s| || limit == Some(0) then j.s[i..]
    else if !j.hits[i] then [j.s[i]] + Scan(j, limit, i + 1)
    else if Qualifies(j.pre, j.post, i) then j.with + Scan(j, OneLess(limit), i + j.len)
    else j.s[i..i + j.len] + Scan(j, limit, i + j.len)
  }

  function OneLess(limit: Option<nat>): Option<nat> {
    if limit.Some? && limit.value > 0 then Some(limit.value - 1) else limit
  }

  function PrePlace(q: Request): Option<nat> {
    if Given(q.preexist).Some? then First(q.HitsOf(q.preexist.value), 0) else None
  }

  function PostPlace(q: Request): Option<nat> {
    if Given(q.postexist).Some? then
      LastApart(q.HitsOf(q.postexist.value), |q.source|, |q.postexist.value|, 0)
    else None
  }

  function JobOf(q: Request): (j: Job)
    requires q.searchfor != ""
    ensures j.Ok()
  {
    Job(q.source, q.HitsOf(q.searchfor), |q.searchfor|, q.replacewith, PrePlace(q), PostPlace(q))
  }

  /** The meaning of a request. */
  function Replaced(q: Request): string
    requires q.searchfor != ""
  {
    if (Given(q.preexist).Some? && PrePlace(q).None?) || (Given(q.postexist).Some? && PostPlace(q).None?) then q.source
    else Scan(JobOf(q), LimitOf(q.number), 0)
  }

  /** How many occurrences do not overlap, taken from the left. */
  function CountApart(hits: seq<bool>, n: nat, len: nat, from: nat): nat
    requires Marks(hits, n, len) && from <= n
    decreases n - from
  {
    match First(hits, from)
    case None => 0
    case Some(p) => 1 + CountApart(hits, n, len, p + len)
  }

  /** Where copying stops: at an occurrence, or at the end of the text. */
  function StopAt(j: Job, end: Option<nat>): (n: nat)
    requires j.Ok() && (end.Some? ==> end.value <= |j.s| && j.hits[end.value])
    ensures n <= |j.s| && (end.Some? ==> n == end.value < |j.s|)
  {
    if end.Some? then end.value else |j.s|
  }

  lemma SliceJoin(s: string, i: nat, stop: nat)
    requires i <= stop <= |s|
    ensures s[i..] == s[i..stop] + s[stop..]
  {
  }

  lemma HeadJoin(s: string, i: nat, stop: nat, rest: string)
    requires i < stop <= |s|
    ensures [s[i]] + (s[i + 1..stop] + rest) == s[i..stop] + rest
  {
  }

  /** Text up to the next occurrence is copied as it is. */
  lemma {:induction false} ScanSkip(j: Job, limit: Option<nat>, i: nat)
    requires j.Ok() && i <= |j.s|
    ensures var stop := StopAt(j, First(j.hits, i));
            i <= stop && Scan(j, limit, i) == j.s[i..stop] + Scan(j, limit, stop)
    decreases |j.s| - i
  {
    var stop := StopAt(j, First(j.hits, i));
    var rest := Scan(j, limit, stop);
    if i == stop {
      assert j.s[i..stop] + rest == rest;
    } else if limit == Some(0) {
      ScanSkip(j, limit, i + 1);
      SliceJoin(j.s, i, stop);
    } else {
      ScanSkip(j, limit, i + 1);
      assert Scan(j, limit, i) == [j.s[i]] + (j.s[i + 1..stop] + rest);
      HeadJoin(j.s, i, stop, rest);
    }
  }

  /** An occurrence that does not qualify is copied as it is. */
  lemma ScanPass(j: Job, limit: Option<nat>, p: nat)
    requires j.Ok() && p < |j.s| && j.hits[p] && !Qualifies(j.pre, j.post, p)
    ensures Scan(j, limit, p) == j.s[p..p + j.len] + Scan(j, limit, p + j.len)
  {
    if limit == Some(0) {
      assert j.s[p..] == j.s[p..p + j.len] + j.s[p + j.len..];
    }
  }

  /** A limit that no scan reaches is no limit. */
  lemma {:induction false} AmpleLimit(j: Job, k: nat, i: nat)
    requires j.Ok() && i <= |j.s| && k >= CountApart(j.hits, |j.s|, j.len, i)
    ensures Scan(j, Some(k), i) == Scan(j, None, i)
    decreases |j.s| - i
  {
    ScanSkip(j, Some(k), i);
    ScanSkip(j, None, i);
    var f := First(j.hits, i);
    if f.Some? {
      AmpleLimit(j, if Qualifies(j.pre, j.post, f.value) then k - 1 else k, f.value + j.len);
      AmpleAt(j, k, f.value);
    }
  }

  lemma AmpleAt(j: Job, k: nat, p: nat)
    requires j.Ok() && p < |j.s| && j.hits[p] && k > 0
    requires var k' := if Qualifies(j.pre, j.post, p) then k - 1 else k;
      Scan(j, Some(k'), p + j.len) == Scan(j, None, p + j.len)
    ensures Scan(j, Some(k), p) == Scan(j, None, p)
  {
  }

  /** What is put in adds at most `k` times the difference in length. */
  lemma {:induction false} ScanGrows(j: Job, k: nat, i: nat)
    requires j.Ok() && i <= |j.s| && |j.with| > j.len
    ensures |Scan(j, Some(k), i)| <= |j.s| - i + (|j.with| - j.len) * k
    decreases |j.s| - i
  {
    var d := |j.with| - j.len;
    Times(d, k);
    if i == |j.s| || k == 0 {
    } else if !j.hits[i] {
      ScanGrows(j, k, i + 1);
    } else if Qualifies(j.pre, j.post, i) {
      ScanGrows(j, k - 1, i + j.len);
    } else {
      ScanGrows(j, k, i + j.len);
    }
  }

  lemma Times(d: nat, k: nat)
    ensures d * k >= 0 && (k > 0 ==> d * k == d * (k - 1) + d)
  {
  }

  /** What is not longer adds nothing. */
  lemma {:induction false} ScanShrinks(j: Job, limit: Option<nat>, i: nat)
    requires j.Ok() && i <= |j.s| && |j.with| <= j.len
    ensures |Scan(j, limit, i)| <= |j.s| - i
    decreases |j.s| - i
  {
    var r := Scan(j, limit, i);
    if i == |j.s| || limit == Some(0) {
      assert r == j.s[i..];
    } else if !j.hits[i] {
      ScanShrinks(j, limit, i + 1);
      assert |r| == 1 + |Scan(j, limit, i + 1)|;
    } else if Qualifies(j.pre, j.post, i) {
      ScanShrinks(j, OneLess(limit), i + j.len);
      assert |r| == |j.with| + |Scan(j, OneLess(limit), i + j.len)|;
    } else {
      ScanShrinks(j, limit, i + j.len);
      assert |r| == j.len + |Scan(j, limit, i + j.len)|;
    }
  }

  /** Counts the occurrences that do not overlap. */
  method CountOccurrences(hits: seq<bool>, n: nat, len: nat) returns (c: nat)
    requires Marks(hits, n, len)
    ensures c == CountApart(hits, n, len, 0)
  {
    c := 0;
    var p := 0;
    var q := First(hits, p);
    while q.Some?
      invariant p <= n && q == First(hits, p) && c + CountApart(hits, n, len, p) == CountApart(hits, n, len, 0)
      decreases n - p
    {
      c := c + 1;
      p := q.value + len;
      q := First(hits, p);
    }
  }

  /** Finds the last of the occurrences that do not overlap. */
  method FindLast(hits: seq<bool>, n: nat, len: nat) returns (r: Option<nat>)
    requires Marks(hits, n, len)
    ensures r == LastApart(hits, n, len, 0)
  {
    r := None;
    var p := 0;
    while true
      invariant p <= n
      invariant LastApart(hits, n, len, 0) == if LastApart(hits, n, len, p).Some? then LastApart(hits, n, len, p) else r
      decreases n - p
    {
      var q := First(hits, p);
      if q.None? {
        return;
      }
      r := q;
      p := q.value + len;
    }
  }

  /** Looks for the next occurrence to replace, at or after `from`. */
  method NextSegment(j: Job, conditions: bool, from: nat, ghost count: int) returns (end: Option<nat>)
    requires j.Ok() && from <= |j.s| && (!conditions ==> j.pre.None? && j.post.None?)
    ensures end.Some? ==> from <= end.value < |j.s| && j.Wanted(end.value)
    ensures Scan(j, LimitOf(count), from) == Rest(j, from, end, count)
  {
    ghost var limit := LimitOf(count);
    var ok := false;
    end := First(j.hits, from);
    ScanSkip(j, limit, from);
    while end.Some? && !ok && conditions
      invariant end.Some? ==> end.value <= |j.s| && j.hits[end.value]
      invariant StopAt(j, end) >= from
      invariant ok ==> end.Some? && Qualifies(j.pre, j.post, end.value)
      invariant Scan(j, limit, from) == j.s[from..StopAt(j, end)] + Scan(j, limit, StopAt(j, end))
      decreases |j.s| - StopAt(j, end), !ok
    {
      var preOk := j.pre.None? || j.pre.value < end.value;
      var postOk := j.post.None? || j.post.value > end.value;
      if !preOk || !postOk {
        var p := end.value;
        end := First(j.hits, p + j.len);
        PassOver(j, limit, from, p, StopAt(j, end));
      } else {
        ok := true;
      }
    }
    if end.None? {
      assert Scan(j, limit, |j.s|) == "";
      assert j.s[from..|j.s|] + "" == j.s[from..];
    }
  }

  /** Stepping over an occurrence that does not qualify, to the next one. */
  lemma PassOver(j: Job, limit: Option<nat>, from: nat, p: nat, stop: nat)
    requires j.Ok() && from <= p < |j.s| && j.hits[p] && !Qualifies(j.pre, j.post, p)
    requires stop == StopAt(j, First(j.hits, p + j.len))
    requires Scan(j, limit, from) == j.s[from..p] + Scan(j, limit, p)
    ensures Scan(j, limit, from) == j.s[from..stop] + Scan(j, limit, stop)
  {
    PassTo(j, limit, p, stop);
    Glue(j.s, from, p, stop, Scan(j, limit, from), Scan(j, limit, p), Scan(j, limit, stop));
  }

  lemma PassTo(j: Job, limit: Option<nat>, p: nat, stop: nat)
    requires j.Ok() && p < |j.s| && j.hits[p] && !Qualifies(j.pre, j.post, p)
    requires stop == StopAt(j, First(j.hits, p + j.len))
    ensures p <= stop && Scan(j, limit, p) == j.s[p..stop] + Scan(j, limit, stop)
  {
    var after := p + j.len;
    var a, b, rest := Scan(j, limit, p), Scan(j, limit, after), Scan(j, limit, stop);
    assert a == j.s[p..after] + b by { ScanPass(j, limit, p); }
    assert after <= stop && b == j.s[after..stop] + rest by { ScanSkip(j, limit, after); }
    Glue(j.s, p, after, stop, a, b, rest);
  }

  /** Two copied pieces that meet. */
  lemma Glue(s: string, from: nat, p: nat, stop: nat, a: string, b: string, rest: string)
    requires from <= p <= stop <= |s| && a == s[from..p] + b && b == s[p..stop] + rest
    ensures a == s[from..stop] + rest
  {
    assert s[from..p] + s[p..stop] == s[from..stop];
  }

  /** Copies text into the buffer. */
  method Put(buffer: array<char>, at: nat, text: string)
    requires at + |text| <= buffer.Length
    modifies buffer
    ensures buffer[..at + |text|] == old(buffer[..at]) + text
  {
    for i := 0 to |text|
      invariant buffer[..at + i] == old(buffer[..at]) + text[..i]
    {
      buffer[at + i] := text[i];
      assert buffer[..at + (i + 1)] == buffer[..at + i] + [text[i]];
      assert text[..i + 1] == text[..i] + [text[i]];
    }
    assert text[..|text|] == text;
  }

  /** Copies a segment and what follows it in place of the occurrence. */
  method PutBoth(buffer: array<char>, at: nat, segment: string, with: string, ghost rest: string, ghost target: string)
    returns (at': nat)
    requires at <= |target| < buffer.Length && buffer[..at] + (segment + with + rest) == target
    modifies buffer
    ensures at <= at' <= |target| && buffer[..at'] + rest == target
  {
    ghost var before := buffer[..at];
    Regroup(before, segment, with, rest);
    assert |target| == |before + segment + with| + |rest|;
    Put(buffer, at, segment);
    Put(buffer, at + |segment|, with);
    at' := at + |segment| + |with|;
    assert buffer[..at'] == before + segment + with;
  }

  lemma Regroup(a: string, b: string, c: string, d: string)
    ensures a + (b + c + d) == (a + b + c) + d
  {
  }

  /** How many bytes the result is given room for, and the number of replacements counted on. */
  method SizeRequired(q: Request) returns (size: nat, replaceCount: nat)
    requires q.searchfor != ""
    ensures var j := JobOf(q);
            && Scan(j, LimitOf(replaceCount), 0) == Scan(j, LimitOf(q.number), 0)
            && |Scan(j, LimitOf(replaceCount), 0)| < size
  {
    var difference := |q.replacewith| - |q.searchfor|;
    replaceCount := q.number;
    ghost var j := JobOf(q);
    if difference > 0 {
      if replaceCount == 0 {
        replaceCount := CountOccurrences(q.HitsOf(q.searchfor), |q.source|, |q.searchfor|);
        AmpleLimit(j, replaceCount, 0);
      }
      ScanGrows(j, replaceCount, 0);
      Times(difference, replaceCount);
      if replaceCount == 0 {
        AmpleLimit(j, 0, 0);
      }
      size := |q.source| + difference * replaceCount + 1;
    } else {
      ScanShrinks(j, LimitOf(q.number), 0);
      size := |q.source| + 1;
    }
  }

  /** A count as a limit: only a positive one limits. */
  function LimitOf(count: int): Option<nat> {
    if count > 0 then Some(count) else None
  }

  /** What is still to be put behind the text copied up to `start`, when the next occurrence to replace is `end`. */
  ghost function Rest(j: Job, start: nat, end: Option<nat>, count: int): string
    requires j.Ok() && start <= |j.s|
    requires end.Some? ==> start <= end.value < |j.s| && j.Wanted(end.value)
  {
    if end.None? then j.s[start..] else j.s[start..end.value] + Scan(j, LimitOf(count), end.value)
  }

  /** Replacing one occurrence. */
  lemma RestStep(j: Job, start: nat, p: nat, count: int)
    requires j.Ok() && start <= p < |j.s| && j.Wanted(p)
    ensures var after := p + j.len;
            Rest(j, start, Some(p), count) == j.s[start..p] + j.with +
              (if count == 1 then j.s[after..] else Scan(j, LimitOf(count - 1), after))
  {
    var after := p + j.len;
    assert OneLess(LimitOf(count)) == if count == 1 then Some(0) else LimitOf(count - 1);
    assert j.s[start..p] + (j.with + Scan(j, OneLess(LimitOf(count)), after))
        == j.s[start..p] + j.with + Scan(j, OneLess(LimitOf(count)), after);
  }

  /** Copies the segment up to the occurrence at `p` and its replacement, and looks for the next occurrence.
      `count` replacements are still allowed after this one; only 0 means none. */
  method ReplaceOne(j: Job, conditions: bool, buffer: array<char>, newP: nat, start: nat, p: nat, count: int,
                    ghost todo: string, ghost target: string)
    returns (newP': nat, end: Option<nat>, ghost todo': string)
    requires j.Ok() && (!conditions ==> j.pre.None? && j.post.None?)
    requires start <= p < |j.s| && j.Wanted(p) && todo == Rest(j, start, Some(p), count + 1)
    requires newP <= |target| < buffer.Length && buffer[..newP] + todo == target
    modifies buffer
    ensures var after := p + j.len;
            && (end.Some? ==> after <= end.value < |j.s| && j.Wanted(end.value))
            && todo' == Rest(j, after, end, count)
    ensures newP' <= |target| && buffer[..newP'] + todo' == target
  {
    var after := p + j.len;
    var segment := j.s[start..p];
    RestStep(j, start, p, count + 1);
    todo' := if count == 0 then j.s[after..] else Scan(j, LimitOf(count), after);
    assert todo == segment + j.with + todo';
    newP' := PutBoth(buffer, newP, segment, j.with, todo', target);
    if count == 0 {
      end := None;
    } else {
      end := NextSegment(j, conditions, after, count);
    }
  }

  /** Copies the last segment. */
  method PutLast(buffer: array<char>, newP: nat, segment: string, ghost target: string) returns (newP': nat)
    requires newP <= |target| < buffer.Length && buffer[..newP] + segment == target
    modifies buffer
    ensures newP' == |target| && buffer[..newP'] == target
  {
    Put(buffer, newP, segment);
    newP' := newP + |segment|;
  }

  /** Fills the buffer segment by segment. `target` is the whole text that must come out. */
  method FillBuffer(j: Job, conditions: bool, count: nat, buffer: array<char>, ghost target: string) returns (newP: nat)
    requires j.Ok() && (!conditions ==> j.pre.None? && j.post.None?)
    requires target == Scan(j, LimitOf(count), 0) && |target| < buffer.Length
    modifies buffer
    ensures newP < buffer.Length && buffer[..newP] == target && buffer[newP] == '\0'
  {
    var start;
    newP, start := FillSegments(j, conditions, count, buffer, target);
    // the last segment; a further turn of the program's loop would find nothing to copy
    newP := PutLast(buffer, newP, j.s[start..], target);
    buffer[newP] := '\0';
  }

  /** The loop over the occurrences that are replaced. What follows the last of them is still to be copied. */
  method FillSegments(j: Job, conditions: bool, count: nat, buffer: array<char>, ghost target: string)
    returns (newP: nat, start: nat)
    requires j.Ok() && (!conditions ==> j.pre.None? && j.post.None?)
    requires target == Scan(j, LimitOf(count), 0) && |target| < buffer.Length
    modifies buffer
    ensures newP <= |target| && start <= |j.s| && buffer[..newP] + j.s[start..] == target
  {
    var replaceCount: int := count;
    var end := NextSegment(j, conditions, 0, count);
    newP, start := 0, 0;
    ghost var todo := target;
    assert buffer[..newP] + todo == target;
    while end.Some?
      invariant newP <= |target| && start <= |j.s|
      invariant end.Some? ==> start <= end.value < |j.s| && j.Wanted(end.value)
      invariant buffer[..newP] + todo == target
      invariant todo == Rest(j, start, end, replaceCount)
      decreases |j.s| - start
    {
      var p := end.value;
      replaceCount := replaceCount - 1;
      newP, end, todo := ReplaceOne(j, conditions, buffer, newP, start, p, replaceCount, todo, target);
      start := p + j.len;
    }
  }

  /** The replacement engine. It gives what the simple scan gives; the room it counted always suffices, so at
      least one byte is left for the terminator. */
  method Replace(q: Request) returns (r: string)
    requires q.searchfor != ""
    ensures r == Replaced(q)
  {
    var pre, post := None, None;
    var conditions := false;
    if Given(q.preexist).Some? {
      conditions := true;
      pre := First(q.HitsOf(q.preexist.value), 0);
      if pre.None? {
        return q.source;
      }
    }
    if Given(q.postexist).Some? {
      conditions := true;
      post := FindLast(q.HitsOf(q.postexist.value), |q.source|, |q.postexist.value|);
      if post.None? {
        return q.source;
      }
    }
    var size, count := SizeRequired(q);
    var buffer := new char[size];
    var j := Job(q.source, q.HitsOf(q.searchfor), |q.searchfor|, q.replacewith, pre, post);
    ghost var target := Scan(j, LimitOf(count), 0);
    var newP := FillBuffer(j, conditions, count, buffer, target);
    return buffer[..newP];
  }

  /** Replacing occurrences, at most `limit` of them, said without places: at an occurrence put the replacement, else
      keep a character. */
  function ReplaceUpTo(s: string, text: string, with: string, limit: Option<nat>): string
    requires text != ""
  {
    if s == "" || limit == Some(0) then s
    else if text <= s then with + ReplaceUpTo(s[|text|..], text, with, OneLess(limit))
    else [s[0]] + ReplaceUpTo(s[1..], text, with, limit)
  }

  lemma ReplaceStep(s: string, text: string, with: string)
    requires text != "" && s != ""
    ensures ReplaceUpTo(s, text, with, None)
         == if text <= s then with + ReplaceUpTo(s[|text|..], text, with, None)
            else [s[0]] + ReplaceUpTo(s[1..], text, with, None)
  {
  }

  /** Without conditions the engine replaces the leftmost occurrences, all of them or as many as asked for. */
  lemma ReplacedUpTo(q: Request)
    requires q.searchfor != "" && !q.insensitive && Given(q.preexist).None? && Given(q.postexist).None?
    ensures Replaced(q) == ReplaceUpTo(q.source, q.searchfor, q.replacewith, LimitOf(q.number))
  {
    assert Fold(false, q.source) == q.source && Fold(false, q.searchfor) == q.searchfor;
    ScanUpTo(JobOf(q), q.searchfor, LimitOf(q.number), 0);
    assert q.source[0..] == q.source;
  }

  lemma {:induction false} ScanUpTo(j: Job, text: string, limit: Option<nat>, i: nat)
    requires j.Ok() && i <= |j.s| && j.pre.None? && j.post.None?
    requires text != "" && j.len == |text| && j.hits == Hits(j.s, text)
    ensures Scan(j, limit, i) == ReplaceUpTo(j.s[i..], text, j.with, limit)
    decreases |j.s| - i
  {
    if i < |j.s| && limit != Some(0) {
      if j.hits[i] {
        ScanUpTo(j, text, OneLess(limit), i + j.len);
        UpToHit(j.s, text, j.with, limit, i);
      } else {
        ScanUpTo(j, text, limit, i + 1);
        UpToMiss(j.s, text, j.with, limit, i);
      }
    }
  }

  lemma UpToHit(s: string, text: string, with: string, limit: Option<nat>, i: nat)
    requires text != "" && OccursAt(s, text, i) && limit != Some(0)
    ensures ReplaceUpTo(s[i..], text, with, limit) == with + ReplaceUpTo(s[i + |text|..], text, with, OneLess(limit))
  {
    PrefixOccurs(s, text, i);
    assert s[i..][|text|..] == s[i + |text|..];
  }

  lemma UpToMiss(s: string, text: string, with: string, limit: Option<nat>, i: nat)
    requires text != "" && i < |s| && !OccursAt(s, text, i) && limit != Some(0)
    ensures ReplaceUpTo(s[i..], text, with, limit) == [s[i]] + ReplaceUpTo(s[i + 1..], text, with, limit)
  {
    PrefixOccurs(s, text, i);
    assert s[i..][1..] == s[i + 1..];
  }

  lemma PrefixOccurs(s: string, text: string, i: nat)
    requires i <= |s|
    ensures text <= s[i..] <==> OccursAt(s, text, i)
  {
    if i + |text| <= |s| {
      assert s[i..][..|text|] == s[i..i + |text|];
    }
  }
}
