/**
 * The stack of MIME boundaries: multipart boundaries are pushed as they are met,
 * and a line is compared with all of them to see whether it ends a part.
 * Section 5.1 of RFC 2046 describes what such a line looks like.
 */
module BoundaryStack {

  import opened Common

  // ----- Which lines belong to a boundary -----

  predicate IsAlnum(c: char) {
    'a' <= c <= 'z' || 'A' <= c <= 'Z' || '0' <= c <= '9'
  }

  /** Number of letters and digits in `s`. */
  function Alnum(s: string): nat {
    if s == [] then 0 else (if IsAlnum(s[0]) then 1 else 0) + Alnum(s[1..])
  }

  /** How much of a line is looked at. */
  const TEST_LENGTH: nat := 126

  function Cropped(line: string): string {
    if |line| > TEST_LENGTH then line[..TEST_LENGTH] else line
  }

  /**
   * The full test of one boundary, without any shortcut: it stands near the
   * front of the line and the line holds as many letters and digits as it.
   */
  ghost predicate Matches(boundary: string, line: string, window: nat) {
    && Alnum(boundary) == Alnum(line)
    && if boundary == [] then OccursAt(Cropped(line), "--", 0)
       else exists k :: 0 <= k < window && OccursAt(Cropped(line), boundary, k)
  }

  /** Position, from the top, of the first boundary that matches. */
  ghost function Topmost(live: seq<string>, line: string, window: nat): (r: Option<nat>)
    ensures r.Some? ==> r.value < |live| && Matches(live[r.value], line, window)
    ensures r.Some? ==> forall i :: 0 <= i < r.value ==> !Matches(live[i], line, window)
    ensures r.None? ==> forall i :: 0 <= i < |live| ==> !Matches(live[i], line, window)
  {
    if live == [] then None
    else if Matches(live[0], line, window) then Some(0)
    else
      var r := Topmost(live[1..], line, window);
      if r.None? then None else Some(r.value + 1)
  }

  lemma {:induction false} AlnumAppend(s: string, t: string)
    ensures Alnum(s + t) == Alnum(s) + Alnum(t)
  {
    if s == [] {
      assert s + t == t;
    } else {
      AlnumAppend(s[1..], t);
      assert (s + t)[1..] == s[1..] + t;
    }
  }

  /** A line as a boundary with something before and something behind it. */
  ghost predicate Framed(boundary: string, line: string, window: nat, pre: string, post: string) {
    && line == pre + boundary + post
    && Alnum(pre) == 0 && Alnum(post) == 0
    && |pre| < window && |pre| + |boundary| <= TEST_LENGTH
  }

  /**
   * What a match means: the line is the boundary, framed by characters that
   * are neither letters nor digits, fewer of them in front than the window,
   * and the boundary ends within the part that is looked at.
   */
  lemma MatchIff(boundary: string, line: string, window: nat)
    requires boundary != []
    ensures Matches(boundary, line, window) <==> exists pre, post :: Framed(boundary, line, window, pre, post)
  {
    if Matches(boundary, line, window) {
      var k :| 0 <= k < window && OccursAt(Cropped(line), boundary, k);
      FrameAt(boundary, line, window, k);
    }
    if pre, post :| Framed(boundary, line, window, pre, post) {
      MatchFramed(boundary, line, window, pre, post);
    }
  }

  lemma FrameAt(boundary: string, line: string, window: nat, k: nat)
    requires Alnum(boundary) == Alnum(line) && k < window && OccursAt(Cropped(line), boundary, k)
    ensures Framed(boundary, line, window, line[..k], line[k + |boundary|..])
  {
    var j := k + |boundary|;
    assert Cropped(line)[k..j] == line[k..j];
    Cut(line, k, j);
    AlnumFrame(line[..k], boundary, line[j..]);
  }

  lemma MatchFramed(boundary: string, line: string, window: nat, pre: string, post: string)
    requires boundary != [] && Framed(boundary, line, window, pre, post)
    ensures Matches(boundary, line, window)
  {
    var k := |pre|;
    AlnumFrame(pre, boundary, post);
    assert line[k..k + |boundary|] == boundary;
    assert Cropped(line)[k..k + |boundary|] == line[k..k + |boundary|];
    assert OccursAt(Cropped(line), boundary, k);
  }

  lemma Cut(s: string, i: nat, j: nat)
    requires i <= j <= |s|
    ensures s == s[..i] + s[i..j] + s[j..]
  {
  }

  lemma AlnumFrame(pre: string, s: string, post: string)
    ensures Alnum(pre + s + post) == Alnum(pre) + Alnum(s) + Alnum(post)
  {
    AlnumAppend(pre + s, post);
    AlnumAppend(pre, s);
  }

  /** The empty boundary: two hyphens in front, and no letter or digit at all. */
  lemma MatchEmptyIff(line: string, window: nat)
    ensures Matches([], line, window) <==> OccursAt(line, "--", 0) && Alnum(line) == 0
  {
    if |line| >= 2 { assert Cropped(line)[0..2] == line[0..2]; }
  }

  /**
   * Every delimiter line is recognised: two hyphens, the boundary, and behind
   * it hyphens, spaces and line ends.
   */
  lemma Delimiter(boundary: string, post: string, window: nat)
    requires boundary != [] && |boundary| <= TEST_LENGTH - 2 && window >= 3 && Alnum(post) == 0
    ensures Matches(boundary, "--" + boundary + post, window)
  {
    assert Alnum("--"[1..]) == 0;
    assert Framed(boundary, "--" + boundary + post, window, "--", post);
    MatchFramed(boundary, "--" + boundary + post, window, "--", post);
  }

  lemma MatchLength(boundary: string, line: string, window: nat)
    requires Matches(boundary, line, window)
    ensures |boundary| <= |line|
  {
  }

  // ----- The stack without shortcuts -----

  datatype Op = Push(boundary: string) | Pop | Clear | Compare(line: string)

  /**
   * The boundaries, topmost first, and the number that the limit is compared
   * with.
   */
  datatype State = State(live: seq<string>, held: int)

  const EMPTY: State := State([], 0)

  ghost function Step(s: State, op: Op, hold: int, window: nat): State {
    match op
    case Push(b) => if hold > 0 && s.held >= hold then s else State([b] + s.live, s.held + 1)
    case Pop => if s.live == [] then s else State(s.live[1..], s.held - 1)
    case Clear => EMPTY
    case Compare(line) =>
      var r := Topmost(s.live, line, window);
      if r.None? then s else State(s.live[r.value..], s.held)
  }

  /** Whether `op` is a comparison that finds a boundary. */
  ghost predicate HitAt(s: State, op: Op, window: nat) {
    op.Compare? && Topmost(s.live, op.line, window).Some?
  }

  ghost function Run(ops: seq<Op>, hold: int, window: nat): State {
    if ops == [] then EMPTY else Step(Run(ops[..|ops| - 1], hold, window), ops[|ops| - 1], hold, window)
  }

  /** The answer to every operation of a run. */
  ghost function Hits(ops: seq<Op>, hold: int, window: nat): seq<bool> {
    if ops == [] then []
    else
      var before, op := ops[..|ops| - 1], ops[|ops| - 1];
      Hits(before, hold, window) + [HitAt(Run(before, hold, window), op, window)]
  }

  /** Boundaries that hits have discarded since the stack was last cleared. */
  ghost function Discarded(ops: seq<Op>, hold: int, window: nat): nat {
    if ops == [] then 0
    else
      var before, op := ops[..|ops| - 1], ops[|ops| - 1];
      match op
      case Clear => 0
      case Compare(line) =>
        var r := Topmost(Run(before, hold, window).live, line, window);
        Discarded(before, hold, window) + if r.None? then 0 else r.value
      case _ => Discarded(before, hold, window)
  }

  /**
   * Over every run: what is held exceeds the live depth by exactly the
   * boundaries that hits discarded, and a limit is never passed.
   */
  lemma {:induction false} HeldAccount(ops: seq<Op>, hold: int, window: nat)
    ensures var s := Run(ops, hold, window);
      && s.held == |s.live| + Discarded(ops, hold, window)
      && (hold > 0 ==> |s.live| <= s.held <= hold)
  {
    if ops != [] {
      HeldAccount(ops[..|ops| - 1], hold, window);
    }
  }

  /**
   * A push is refused exactly when the live boundaries and the discarded ones
   * together reach the limit.
   */
  lemma PushRefusedIff(ops: seq<Op>, hold: int, window: nat, boundary: string)
    ensures Run(ops + [Push(boundary)], hold, window).live == Run(ops, hold, window).live
       <==> hold > 0 && |Run(ops, hold, window).live| + Discarded(ops, hold, window) >= hold
  {
    HeldAccount(ops, hold, window);
    var s, next := Run(ops, hold, window), ops + [Push(boundary)];
    assert next[..|next| - 1] == ops;
    assert |[boundary] + s.live| == |s.live| + 1;
  }

  /** So a push can be refused although there is room: the limit here is 2, and one boundary is live. */
  lemma RefusedWithRoom()
    ensures var ops := [Push("a"), Push("b"), Compare("--a")];
      && Run(ops, 2, 4).live == ["a"]
      && Run(ops + [Push("c")], 2, 4).live == ["a"]
  {
    var ops := [Push("a"), Push("b"), Compare("--a")];
    assert ops[..2] == [Push("a"), Push("b")] && ops[..2][..1] == [Push("a")] && ops[..2][..1][..0] == [];
    assert Run([Push("a")], 2, 4) == State(["a"], 1);
    assert Run(ops[..2], 2, 4) == State(["b", "a"], 2);
    MismatchedLine();
    Delimiter("a", "", 4);
    assert "--" + "a" + "" == "--a";
    assert Topmost(["b", "a"], "--a", 4) == Some(1);
    assert Run(ops, 2, 4) == State(["a"], 2);
    assert (ops + [Push("c")])[..3] == ops;
  }

  lemma MismatchedLine()
    ensures !Matches("b", "--a", 4)
  {
    var hay := Cropped("--a");
    forall k: nat ensures !OccursAt(hay, "b", k) {
      if k + 1 <= |hay| { assert hay[k..k + 1][0] == hay[k]; }
    }
  }

  /** A hit with the same line again changes nothing and is again a hit, on the topmost boundary. */
  lemma {:induction false} HitAgain(s: State, line: string, hold: int, window: nat)
    requires Topmost(s.live, line, window).Some?
    ensures var t := Step(s, Compare(line), hold, window);
      && Topmost(t.live, line, window) == Some(0)
      && Step(t, Compare(line), hold, window) == t
  {
    var r := Topmost(s.live, line, window).value;
    var t := Step(s, Compare(line), hold, window);
    assert t.live[0] == s.live[r];
    assert t.live[0..] == t.live;
  }

  /** A delimiter line of a live boundary ends every part opened inside it, unless an inner boundary matches too. */
  lemma {:induction false} DelimiterEndsInner(s: State, i: nat, post: string, hold: int, window: nat)
    requires i < |s.live| && s.live[i] != [] && |s.live[i]| <= TEST_LENGTH - 2 && window >= 3 && Alnum(post) == 0
    requires forall j :: 0 <= j < i ==> !Matches(s.live[j], "--" + s.live[i] + post, window)
    ensures Step(s, Compare("--" + s.live[i] + post), hold, window).live == s.live[i..]
  {
    var line := "--" + s.live[i] + post;
    Delimiter(s.live[i], post, window);
    var r := Topmost(s.live, line, window);
    assert r.Some? && !(r.value < i) && !(i < r.value);
  }

  // ----- The stack as it is kept -----

  datatype Node = Node(boundary: string, length: nat, nhl: nat)

  predicate Sound(n: Node) { n.length == |n.boundary| && n.nhl == Alnum(n.boundary) }

  function Names(nodes: seq<Node>): (s: seq<string>)
    ensures |s| == |nodes|
    ensures forall i :: 0 <= i < |nodes| ==> s[i] == nodes[i].boundary
  {
    seq(|nodes|, i requires 0 <= i < |nodes| => nodes[i].boundary)
  }

  /** The loop that counts letters and digits. */
  method NonHyphenLength(s: string) returns (count: nat)
    ensures count == Alnum(s)
  {
    count := 0;
    var i := 0;
    while i < |s|
      invariant 0 <= i <= |s| && count + Alnum(s[i..]) == Alnum(s)
    {
      assert s[i..][1..] == s[i + 1..];
      if IsAlnum(s[i]) { count := count + 1; }
      i := i + 1;
    }
  }

  class Stack {
    var nodes: seq<Node>
    var count: int
    var detectLimit: nat
    var holdLimit: int
    var smallestLength: int
    var haveEmptyBoundary: bool
    var safe: string

    /** The shortcuts agree with what is on the stack. */
    ghost predicate Valid()
      reads this
    {
      && (forall i :: 0 <= i < |nodes| ==> Sound(nodes[i]))
      && |nodes| <= count
      && -1 <= smallestLength
      && (nodes != [] ==> 0 <= smallestLength)
      && (forall i :: 0 <= i < |nodes| ==> smallestLength <= nodes[i].length)
      && (forall i :: 0 <= i < |nodes| && nodes[i].boundary == [] ==> haveEmptyBoundary)
    }

    ghost function Abs(): State
      reads this
    {
      State(Names(nodes), count)
    }

    constructor ()
      ensures Valid() && Abs() == EMPTY && detectLimit == 4 && holdLimit == 0
      ensures smallestLength == -1 && !haveEmptyBoundary
    {
      nodes, count, detectLimit, holdLimit := [], 0, 4, 0;
      smallestLength, haveEmptyBoundary, safe := -1, false, "";
    }

    method SetHoldLimit(limit: int)
      requires Valid()
      modifies this`holdLimit
      ensures Valid() && holdLimit == limit && Abs() == old(Abs())
    {
      holdLimit := limit;
    }

    method SetDetectLimit(limit: int)
      requires Valid()
      modifies this`detectLimit
      ensures Valid() && Abs() == old(Abs())
      ensures detectLimit == if 0 < limit < 1024 then limit else old(detectLimit)
    {
      if 0 < limit < 1024 { detectLimit := limit; }
    }

    method ClearAll()
      requires Valid()
      modifies this`nodes, this`count, this`smallestLength
      ensures Valid() && Abs() == Step(old(Abs()), Clear, holdLimit, detectLimit)
      ensures smallestLength == -1
    {
      while nodes != []
      {
        nodes := nodes[1..];
      }
      count := 0;
      smallestLength := -1;
    }

    method PushBoundary(boundary: string)
      requires Valid()
      modifies this`nodes, this`count, this`smallestLength, this`haveEmptyBoundary
      ensures Valid() && Abs() == Step(old(Abs()), Push(boundary), holdLimit, detectLimit)
      ensures var shorter := old(smallestLength) == -1 || |boundary| < old(smallestLength);
        smallestLength == if count > old(count) && shorter then |boundary| else old(smallestLength)
      ensures haveEmptyBoundary <==> old(haveEmptyBoundary) || (count > old(count) && boundary == [])
    {
      if holdLimit > 0 && count >= holdLimit { return; }
      ghost var names := Names(nodes);
      var nhl := NonHyphenLength(boundary);
      var node := Node(boundary, |boundary|, nhl);
      nodes := [node] + nodes;
      if node.length == 0 { haveEmptyBoundary := true; }
      count := count + 1;
      if smallestLength == -1 {
        smallestLength := node.length;
      } else if node.length < smallestLength {
        smallestLength := node.length;
      }
      assert Names(nodes) == [boundary] + names;
    }

    /** Returns the boundary taken off, at most 1023 characters of it, or the one returned last. */
    method PopBoundary() returns (top: string)
      requires Valid()
      modifies this`nodes, this`count, this`safe
      ensures Valid() && Abs() == Step(old(Abs()), Pop, holdLimit, detectLimit)
      ensures top == safe
      ensures old(nodes) == [] ==> safe == old(safe)
      ensures old(nodes) != [] ==>
        safe == var b := old(Abs().live)[0]; if |b| > 1023 then b[..1023] else b
    {
      if nodes != [] {
        ghost var names := Names(nodes);
        var b := nodes[0].boundary;
        nodes := nodes[1..];
        safe := if |b| > 1023 then b[..1023] else b;
        count := count - 1;
        assert Names(nodes) == names[1..];
      }
      top := safe;
    }

    predicate IsLongEnough(len: int)
      reads this
    {
      smallestLength != -1 && len >= smallestLength
    }

    /** The window in which a boundary may begin is tried place by place. */
    method Detect(hay: string, node: Node) returns (found: bool)
      requires Sound(node) && (node.boundary == [] ==> haveEmptyBoundary)
      ensures found <==>
        if node.boundary == [] then OccursAt(hay, "--", 0)
        else exists k :: 0 <= k < detectLimit && OccursAt(hay, node.boundary, k)
    {
      if haveEmptyBoundary && node.length < 1 { return OccursAt(hay, "--", 0); }
      var k: nat := 0;
      while k < detectLimit && k < |hay|
        invariant k <= |hay|
        invariant forall j :: 0 <= j < k ==> !OccursAt(hay, node.boundary, j)
      {
        if OccursAt(hay, node.boundary, k) { return true; }
        k := k + 1;
      }
      return false;
    }

    /** The walk down the stack: the first node that passes the count of letters and is then detected. */
    method Search(line: string) returns (at: nat)
      requires Valid()
      ensures var r := Topmost(Names(nodes), line, detectLimit);
        if r.Some? then at == r.value else at == |nodes|
    {
      var nhl := NonHyphenLength(line);
      var testspace := Cropped(line);
      at := 0;
      while at < |nodes|
        invariant at <= |nodes|
        invariant forall i :: 0 <= i < at ==> !Matches(nodes[i].boundary, line, detectLimit)
      {
        assert Sound(nodes[at]);
        if nodes[at].nhl == nhl {
          var found := Detect(testspace, nodes[at]);
          if found { return; }
        }
        at := at + 1;
      }
    }

    /**
     * Compares a line of which the caller says that it has `len` characters.
     * A hit leaves the stack from the topmost matching boundary on, a miss
     * leaves it as it was.  The early exits cost a hit only when `len` is less
     * than some boundary pushed since the stack was cleared, hence never when
     * it is the length of the line.
     */
    method Cmp(line: string, len: int) returns (hit: bool)
      requires Valid()
      modifies this`nodes
      ensures Valid()
      ensures hit <==> old(IsLongEnough(len)) && Topmost(old(Abs().live), line, detectLimit).Some?
      ensures Abs() == if hit then Step(old(Abs()), Compare(line), holdLimit, detectLimit) else old(Abs())
      ensures len >= |line| ==>
        && (hit <==> Topmost(old(Abs().live), line, detectLimit).Some?)
        && Abs() == Step(old(Abs()), Compare(line), holdLimit, detectLimit)
    {
      ghost var names := Names(nodes);
      ghost var r := Topmost(names, line, detectLimit);
      if r.Some? {
        MatchLength(names[r.value], line, detectLimit);
        assert nodes[r.value].boundary == names[r.value] && Sound(nodes[r.value]);
      }
      if count == 0 { return false; }
      if !IsLongEnough(len) { return false; }
      var at := Search(line);
      if at == |nodes| { return false; }
      DropAbove(at);
      assert Names(nodes) == names[at..];
      return true;
    }

    /** Takes off the nodes above position `at`; the count stays as it is. */
    method DropAbove(at: nat)
      requires at <= |nodes|
      modifies this`nodes
      ensures nodes == old(nodes)[at..]
    {
      for i := 0 to at
        invariant nodes == old(nodes)[i..]
      {
        nodes := nodes[1..];
      }
    }
  }

  /**
   * Any run of operations on a fresh stack whose limits are set at the start:
   * every answer and the final stack are those of the search without
   * shortcuts.
   */
  method Play(ops: seq<Op>, hold: int, window: nat) returns (hits: seq<bool>, live: seq<string>)
    requires 0 < window < 1024
    ensures live == Run(ops, hold, window).live
    ensures hits == Hits(ops, hold, window)
  {
    var stack := new Stack();
    stack.SetHoldLimit(hold);
    stack.SetDetectLimit(window);
    hits := [];
    for n := 0 to |ops|
      invariant stack.Valid() && stack.holdLimit == hold && stack.detectLimit == window
      invariant stack.Abs() == Run(ops[..n], hold, window)
      invariant hits == Hits(ops[..n], hold, window)
    {
      ghost var before, after := ops[..n], ops[..n + 1];
      assert after[..n] == before && after[n] == ops[n];
      var hit := Perform(stack, ops[n]);
      hits := hits + [hit];
    }
    assert ops[..|ops|] == ops;
    live := Names(stack.nodes);
  }

  method Perform(stack: Stack, op: Op) returns (hit: bool)
    requires stack.Valid()
    modifies stack
    ensures stack.Valid() && stack.holdLimit == old(stack.holdLimit) && stack.detectLimit == old(stack.detectLimit)
    ensures stack.Abs() == Step(old(stack.Abs()), op, stack.holdLimit, stack.detectLimit)
    ensures hit <==> HitAt(old(stack.Abs()), op, stack.detectLimit)
  {
    hit := false;
    match op
    case Push(b) => stack.PushBoundary(b);
    case Pop => var _ := stack.PopBoundary();
    case Clear => stack.ClearAll();
    case Compare(line) => hit := stack.Cmp(line, |line|);
  }
}
