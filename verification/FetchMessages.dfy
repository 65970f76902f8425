/** One pass over a mailbox: which messages are fetched, forwarded, deleted and marked seen, against
    arbitrary answers of the mail server and of the delivery sink. */
module FetchMessages {

  // Result codes of the protocol methods; every other value is some other failure.
  const PS_SUCCESS := 0
  const PS_NOMAIL := 1
  const PS_SOCKET := 2
  const PS_PROTOCOL := 4
  const PS_SYNTAX := 5
  const PS_LOCKBUSY := 9
  const PS_MAXFETCH := 13
  const PS_TRANSIENT := 24
  const PS_REFUSED := 25
  const PS_RETAINED := 26

  /** The user's options that decide what happens to a message. */
  datatype Options = Options(
    fetchall: bool, keep: bool, flush: bool, limitflush: bool, softbounce: bool,
    limit: int, fetchsizelimit: int)

  /** Which methods the protocol offers. */
  datatype Protocol = Protocol(
    getsizes: bool, getpartialsizes: bool, isOld: bool, fetchBody: bool, trail: bool,
    deleteMsg: bool, markSeen: bool, endMailboxPoll: bool, retry: bool, isPop3: bool)

  /** What server and sink answer about one message. */
  datatype Answers = Answers(
    knownOld: bool,     // the server has seen this message fetched before
    sizesErr: int,      // asking for a window of sizes that starts here
    headersErr: int,    // fetching the headers
    readErr: int,       // reading the headers and opening the sink
    nameErrs: nat,      // nameserver failures counted while reading the headers
    noBody: bool,       // reading the headers found that there is no body to read
    headTrailErr: int,  // end of the header response
    bodyErr: int,       // requesting the body
    readbodyErr: int,   // reading the body into the sink
    trailErr: int,      // end of the message response
    sinkOk: bool,       // the sink confirmed the message
    deleteErr: int,
    seenErr: int)

  /** What handling one message tells the loop. */
  datatype Outcome = Handled | Skipped | Failed(err: int)

  /** Everything that decides the treatment of one message. `force` is set when all messages count as new. */
  datatype Case = Case(o: Options, p: Protocol, force: bool, size: int, a: Answers) {

    predicate Old() { !o.fetchall && !force && p.isOld && a.knownOld }

    predicate Oversized() { !Old() && o.limit > 0 && size > o.limit }

    /** The message is asked for. */
    predicate Wanted() { !Old() && !Oversized() }

    /** The headers came and are read. */
    predicate HeadersRead() { Wanted() && a.headersErr == 0 }

    predicate HeadersFailed() { Wanted() && a.headersErr == PS_TRANSIENT }

    predicate Retained() { Wanted() && a.headersErr == 0 && a.readErr == PS_RETAINED }

    /** The sink did not take the headers, so nothing is forwarded. */
    predicate Rejected() { a.readErr == PS_RETAINED || a.readErr == PS_TRANSIENT || a.readErr == PS_REFUSED }

    predicate BodyRead() { if p.fetchBody then !Rejected() else !a.noBody }

    predicate BodyFailed() { BodyRead() && a.readbodyErr == PS_TRANSIENT }

    /** No answer ends the pass before the message is flagged. */
    predicate Undisturbed() {
      Wanted() && a.headersErr != PS_TRANSIENT ==>
        && a.headersErr == 0
        && (a.readErr == 0 || Rejected())
        && (p.fetchBody && p.trail ==> a.headTrailErr == 0)
        && (BodyRead() ==>
              && (p.fetchBody ==> a.bodyErr == 0)
              && (a.readbodyErr == 0 || a.readbodyErr == PS_TRANSIENT)
              && (p.trail ==> a.trailErr == 0))
    }

    /** The message went through to the end of delivery. */
    predicate Delivered() { Wanted() && a.headersErr == 0 && Undisturbed() }

    predicate Forwarded() { Delivered() && !Rejected() && !BodyFailed() }

    /** The sink was handed the message and confirmed it. */
    predicate Accepted() { Forwarded() && a.sinkOk }

    predicate Fetched() { Delivered() && !Retained() }

    /** The body was asked for without an error before it. */
    predicate BodyReached() {
      && HeadersRead() && (a.readErr == 0 || Rejected())
      && (p.fetchBody && p.trail ==> a.headTrailErr == 0)
      && BodyRead() && (p.fetchBody ==> a.bodyErr == 0)
    }

    /** Delivery ended, but the sink did not confirm it. */
    predicate Unconfirmed() { Delivered() && !a.sinkOk }

    /** The server's copy may be given up: nothing transient, the sink closed well, and a refusal only
        when refusals are final. */
    predicate Disposable() {
      && Delivered() && a.sinkOk && !BodyFailed()
      && (a.readErr == 0 || (a.readErr == PS_REFUSED && !o.softbounce))
    }

    predicate ToDelete() {
      p.deleteMsg && ((Old() && o.flush) || (Oversized() && o.limitflush) || (Disposable() && !o.keep))
    }

    predicate ToMark() { p.markSeen && o.keep && Disposable() }

    /** The answer that ends the pass while the message is fetched and forwarded, or 0. */
    function DeliveryErr(): int {
      if !Wanted() || a.headersErr == PS_TRANSIENT then 0
      else if a.headersErr != 0 then a.headersErr
      else if a.readErr != 0 && !Rejected() then a.readErr
      else if p.fetchBody && p.trail && a.headTrailErr != 0 then a.headTrailErr
      else if BodyRead() then BodyErr()
      else 0
    }

    /** The answer that ends it while the body is read. */
    function BodyErr(): int {
      if p.fetchBody && a.bodyErr != 0 then a.bodyErr
      else if a.readbodyErr != 0 && a.readbodyErr != PS_TRANSIENT then a.readbodyErr
      else if p.trail then a.trailErr
      else 0
    }

    /** The answer that ends the pass on this message, or 0: to delivery, to deletion or to marking. */
    function Failure(): int {
      if DeliveryErr() != 0 then DeliveryErr()
      else if ToDelete() then a.deleteErr
      else if ToMark() then a.seenErr
      else 0
    }

    /** What handling the message tells the loop. */
    function Result(): Outcome {
      if Failure() != 0 then Failed(Failure()) else if HeadersFailed() then Skipped else Handled
    }
  }

  /** A message is skipped as too large only above a limit that is set, and as old only if nothing makes it count as new. */
  lemma WantedIff(c: Case)
    ensures c.Oversized() <==> !c.Old() && 1 <= c.o.limit < c.size
    ensures c.Old() <==> c.a.knownOld && c.p.isOld && !(c.o.fetchall || c.force)
    ensures c.Wanted() <==> !c.Old() && (c.o.limit <= 0 || c.size <= c.o.limit)
  {
  }

  /** Messages that must go do go: one is deleted, or marked seen, exactly when the server can do it and losing its copy is
      allowed, or the copy is kept and would otherwise be lost. */
  lemma DeletedIff(c: Case)
    ensures c.ToDelete() <==> c.p.deleteMsg && Deletable(c)
    ensures c.ToMark() <==> c.p.markSeen && c.o.keep && c.Wanted() && Deletable(c.(o := c.o.(keep := false)))
    ensures c.Undisturbed() <==> c.DeliveryErr() == 0
    ensures c.HeadersFailed() ==> c.Failure() == 0
  {
  }

  /** Nothing that is only retained, transiently failed or unconfirmed is given up; with soft bounces
      only confirmed deliveries are; nothing is both deleted and marked. */
  lemma GivingUp(c: Case)
    ensures c.Disposable() ==> c.Fetched() && c.a.readErr != PS_TRANSIENT && c.a.sinkOk
    ensures c.Disposable() && c.o.softbounce ==> c.Accepted()
    ensures !(c.ToDelete() && c.ToMark())
    ensures c.ToMark() ==> c.Wanted()
  {
  }

  /** Sizes are fetched in windows during the pass instead of all before it. */
  predicate SizesInWindows(o: Options, p: Protocol) { p.getpartialsizes && o.fetchsizelimit > 0 }

  /** The cases of a pass when all sizes are known beforehand, or none is. */
  function Cases(o: Options, p: Protocol, force: bool, known: bool, sizes: seq<int>, answers: seq<Answers>): (cs: seq<Case>)
    requires |sizes| == |answers|
    ensures |cs| == |sizes|
  {
    seq(|sizes|, i requires 0 <= i < |sizes| => Case(o, p, force, if known then sizes[i] else 0, answers[i]))
  }

  /** How many of the first `k` messages satisfy `f`. */
  function CountIf(cs: seq<Case>, k: nat, f: Case -> bool): nat
    requires k <= |cs|
  {
    if k == 0 then 0 else CountIf(cs, k - 1, f) + if f(cs[k - 1]) then 1 else 0
  }

  /** How many of the first `k` messages are fetched. */
  function CountFetched(cs: seq<Case>, k: nat): nat
    requires k <= |cs|
  {
    CountIf(cs, k, (c: Case) => c.Fetched())
  }

  /** How the first `k` messages fared: old, oversized, without headers, retained or fetched. */
  function Fates(cs: seq<Case>, k: nat): nat
    requires k <= |cs|
  {
    CountIf(cs, k, (c: Case) => c.Old()) + CountIf(cs, k, (c: Case) => c.Oversized())
    + CountIf(cs, k, (c: Case) => c.HeadersFailed()) + CountIf(cs, k, (c: Case) => c.Retained())
    + CountFetched(cs, k)
  }

  /** Every message of an undisturbed pass has exactly one fate. */
  lemma {:induction false} Sorted(cs: seq<Case>, k: nat)
    requires k <= |cs| && forall i :: 0 <= i < k ==> cs[i].Undisturbed()
    ensures Fates(cs, k) == k
  {
    if k > 0 {
      Sorted(cs, k - 1);
      assert cs[k - 1].Undisturbed();
    }
  }

  /** The counters of a session. */
  datatype Totals = Totals(fetches: int, dispatches: nat, deletions: nat, errcount: nat, transientErrors: nat)

  function One(b: bool): nat { if b then 1 else 0 }

  /** What one message adds to the counters. */
  function Plus(t: Totals, c: Case): Totals {
    Totals(
      t.fetches + One(c.Fetched()),
      t.dispatches + One(c.Forwarded()),
      t.deletions + One(c.ToDelete()),
      t.errcount + (if c.HeadersRead() then c.a.nameErrs else 0) + One(c.Unconfirmed()),
      t.transientErrors + One(c.HeadersFailed()) + One(c.HeadersRead() && c.a.readErr == PS_TRANSIENT)
      + One(c.BodyReached() && c.a.readbodyErr == PS_TRANSIENT))
  }

  /** The counters after `k` messages. */
  function After(base: Totals, cs: seq<Case>, k: nat): Totals
    requires k <= |cs|
  {
    if k == 0 then base else Plus(After(base, cs, k - 1), cs[k - 1])
  }

  /** Fetches count the fetched messages, dispatches are among them, and deletions count the deletable ones. */
  lemma {:induction false} AfterCounts(base: Totals, cs: seq<Case>, k: nat)
    requires k <= |cs|
    ensures var t := After(base, cs, k);
      && t.fetches == base.fetches + CountFetched(cs, k)
      && 0 <= t.dispatches - base.dispatches <= t.fetches - base.fetches <= k
      && t.deletions == base.deletions + CountIf(cs, k, (c: Case) => c.ToDelete())
  {
    if k > 0 {
      AfterCounts(base, cs, k - 1);
    }
  }

  // ----- Where a pass stops -----

  /** How many sizes are asked for at once, 0 when they are not fetched during the pass. */
  function WindowWidth(o: Options, p: Protocol): nat {
    if !SizesInWindows(o, p) then 0 else if p.isPop3 then 1 else o.fetchsizelimit
  }

  /** The last message whose size is known after `k` messages. Old messages need no size. */
  function LastSized(cs: seq<Case>, width: nat, k: nat): nat
    requires k <= |cs|
    decreases k, 0
  {
    if k == 0 then 0
    else if AsksSizes(cs, width, k - 1) then (if k - 1 + width < |cs| then k - 1 + width else |cs|)
    else LastSized(cs, width, k - 1)
  }

  /** A window of sizes is asked for at message `k + 1`. */
  predicate AsksSizes(cs: seq<Case>, width: nat, k: nat)
    requires k < |cs|
    decreases k, 1
  {
    width > 0 && !cs[k].Old() && LastSized(cs, width, k) <= k
  }

  /** No answer about message `k + 1` ends the pass. */
  predicate Smooth(cs: seq<Case>, width: nat, k: nat)
    requires k < |cs|
  {
    (AsksSizes(cs, width, k) ==> cs[k].a.sizesErr == 0) && cs[k].Failure() == 0
  }

  /** The error a pass ends with and how many messages it came to. */
  datatype Stop = Stop(err: int, done: nat)

  /** Where a pass stops that has fetched `fetches` messages and stands before message `k + 1`. */
  function PassStop(cs: seq<Case>, width: nat, maxfetch: nat, fetches: int, k: nat): Stop
    requires k <= |cs|
    decreases |cs| - k
  {
    if k == |cs| then Stop(PS_SUCCESS, k)
    else if AsksSizes(cs, width, k) && cs[k].a.sizesErr != 0 then Stop(cs[k].a.sizesErr, k)
    else if cs[k].Failure() != 0 then Stop(cs[k].Failure(), k + 1)
    else
      var f := fetches + One(cs[k].Fetched());
      if !cs[k].HeadersFailed() && maxfetch != 0 && maxfetch <= f && k + 1 < |cs| then Stop(PS_MAXFETCH, k + 1)
      else PassStop(cs, width, maxfetch, f, k + 1)
  }

  /** All answers about messages `from + 1` to `to` are smooth. */
  ghost predicate SmoothUpTo(cs: seq<Case>, width: nat, from: nat, to: int)
    requires to <= |cs|
  {
    forall i :: from <= i < to ==> Smooth(cs, width, i)
  }

  /** The fetch limit is reached with message `k + 1`, which was not skipped, and there are more messages. */
  predicate LimitReachedAt(cs: seq<Case>, maxfetch: nat, fetches: int, k: nat)
    requires k < |cs|
  {
    0 < maxfetch <= fetches + CountFetched(cs, k + 1) && !cs[k].HeadersFailed() && k + 1 < |cs|
  }

  /** Why a pass stops where it does: all messages are done; or a request for sizes or an answer about the last message
      failed; or the limit was reached with the last message. No message before gave a reason. */
  lemma {:induction false} StopsBecause(cs: seq<Case>, width: nat, maxfetch: nat, base: int, k: nat)
    requires k <= |cs|
    ensures var s := PassStop(cs, width, maxfetch, base + CountFetched(cs, k), k);
      && k <= s.done <= |cs|
      && SmoothUpTo(cs, width, k, s.done - 1)
      && (forall i :: k <= i < s.done - 1 ==> !LimitReachedAt(cs, maxfetch, base, i))
      && (|| (s.err == PS_SUCCESS && s.done == |cs| && SmoothUpTo(cs, width, k, s.done))
          || (&& s.done < |cs| && SmoothUpTo(cs, width, k, s.done) && AsksSizes(cs, width, s.done)
              && s.err == cs[s.done].a.sizesErr != 0)
          || (s.done > k && s.err == cs[s.done - 1].Failure() != 0)
          || (&& s.done > k && s.err == PS_MAXFETCH && SmoothUpTo(cs, width, k, s.done)
              && LimitReachedAt(cs, maxfetch, base, s.done - 1)))
    decreases |cs| - k
  {
    if k < |cs| && Smooth(cs, width, k) && !LimitReachedAt(cs, maxfetch, base, k) {
      StopsBecause(cs, width, maxfetch, base, k + 1);
    }
  }

  /** A pass that ends well has sorted every message, and a pass that starts below its limit stays within it. */
  lemma StopWithin(cs: seq<Case>, width: nat, maxfetch: nat, base: int)
    ensures var s := PassStop(cs, width, maxfetch, base, 0);
      && s.done <= |cs|
      && (s.err == PS_SUCCESS ==> s.done == |cs| == Fates(cs, |cs|))
      && (maxfetch > 0 && base < maxfetch ==> base + CountFetched(cs, s.done) <= maxfetch)
  {
    var s := PassStop(cs, width, maxfetch, base, 0);
    StopsBecause(cs, width, maxfetch, base, 0);
    if s.err == PS_SUCCESS {
      forall i | 0 <= i < |cs| ensures cs[i].Undisturbed() {
        assert Smooth(cs, width, i);
        DeletedIff(cs[i]);
      }
      Sorted(cs, |cs|);
    }
    if maxfetch > 0 && base < maxfetch && s.done > 0 {
      BelowLimit(cs, maxfetch, base, s.done - 1);
    }
  }

  lemma {:induction false} BelowLimit(cs: seq<Case>, maxfetch: nat, base: int, k: nat)
    requires k < |cs| && base < maxfetch && maxfetch > 0 && forall i :: 0 <= i < k ==> !LimitReachedAt(cs, maxfetch, base, i)
    ensures base + CountFetched(cs, k) < maxfetch
  {
    if k > 0 {
      BelowLimit(cs, maxfetch, base, k - 1);
      assert !LimitReachedAt(cs, maxfetch, base, k - 1);
      assert cs[k - 1].HeadersFailed() ==> !cs[k - 1].Fetched();
    }
  }

  /** A pass without a limit to which no answer puts an end handles every message. */
  lemma NothingStops(cs: seq<Case>, width: nat, base: int)
    requires forall i :: 0 <= i < |cs| ==> cs[i].Undisturbed() && cs[i].a.sizesErr == cs[i].a.deleteErr == cs[i].a.seenErr == 0
    ensures PassStop(cs, width, 0, base, 0) == Stop(PS_SUCCESS, |cs|)
  {
    forall i | 0 <= i < |cs| ensures Smooth(cs, width, i) {
      DeletedIff(cs[i]);
    }
    StopsBecause(cs, width, 0, base, 0);
    var s := PassStop(cs, width, 0, base, 0);
    if 0 < s.done { assert Smooth(cs, width, s.done - 1); }
  }

  /** The buffer holds the sizes of messages `firstnum` to `lastnum`. */
  ghost predicate Window(buffer: array<int>, firstnum: nat, lastnum: nat, sizes: seq<int>)
    reads buffer
  {
    firstnum <= lastnum ==>
      && 1 <= firstnum && lastnum <= |sizes| && lastnum - firstnum < buffer.Length
      && forall i :: 0 <= i <= lastnum - firstnum ==> buffer[i] == sizes[firstnum - 1 + i]
  }

  /** Clears the buffer and has the server fill in the sizes of messages `firstnum` to `lastnum`. */
  method GetPartialSizes(buffer: array<int>, firstnum: nat, lastnum: nat, sizes: seq<int>)
    requires 1 <= firstnum <= lastnum <= |sizes| && lastnum - firstnum < buffer.Length
    modifies buffer
    ensures Window(buffer, firstnum, lastnum, sizes)
  {
    for i := 0 to buffer.Length {
      buffer[i] := 0;
    }
    for i := 0 to lastnum - firstnum + 1
      invariant forall k :: 0 <= k < i ==> buffer[k] == sizes[firstnum - 1 + k]
    {
      buffer[i] := sizes[firstnum - 1 + i];
    }
  }

  /** The size cache of a pass: a full table from before the pass, or a window that starts at `firstnum`. */
  ghost predicate CacheValid(o: Options, p: Protocol, table: array?<int>, msgsizes: array?<int>, fetchsizelimit: int,
                             firstnum: nat, lastnum: nat, sizes: seq<int>)
    reads table, msgsizes
  {
    if SizesInWindows(o, p) then
      && msgsizes != null && 0 < fetchsizelimit == msgsizes.Length
      && Window(msgsizes, firstnum, lastnum, sizes)
    else
      && msgsizes == table && firstnum == 1
      && (table != null ==> table.Length >= |sizes| && table[..|sizes|] == sizes)
  }

  /** The size of message `num` as the pass sees it, after a new window was fetched if needed. The index into
      the cache is always in bounds and the size is the server's own. */
  method SizeOf(o: Options, p: Protocol, ghost table: array?<int>, msgsizes: array?<int>, fetchsizelimit: int,
                firstnum: nat, lastnum: nat, num: nat, sizesErr: int, sizes: seq<int>)
    returns (msgsize: int, firstnum': nat, lastnum': nat, err: int)
    requires 1 <= num <= |sizes| && firstnum <= num
    requires CacheValid(o, p, table, msgsizes, fetchsizelimit, firstnum, lastnum, sizes)
    modifies if SizesInWindows(o, p) then {msgsizes} else {}
    ensures err == if SizesInWindows(o, p) && lastnum < num then sizesErr else 0
    ensures lastnum' == if SizesInWindows(o, p) && lastnum < num
      then (if num + fetchsizelimit - 1 <= |sizes| then num + fetchsizelimit - 1 else |sizes|) else lastnum
    ensures err == 0 ==>
      && firstnum' <= num
      && CacheValid(o, p, table, msgsizes, fetchsizelimit, firstnum', lastnum', sizes)
      && msgsize == if SizesInWindows(o, p) || table != null then sizes[num - 1] else 0
  {
    firstnum', lastnum', msgsize, err := firstnum, lastnum, 0, 0;
    if SizesInWindows(o, p) && lastnum < num {
      firstnum', lastnum' := num, num + fetchsizelimit - 1;
      if lastnum' > |sizes| {
        lastnum' := |sizes|;
      }
      if sizesErr != 0 {
        err := sizesErr;
        return;
      }
      GetPartialSizes(msgsizes, firstnum', lastnum', sizes);
    }
    if msgsizes != null {
      msgsize := msgsizes[num - firstnum'];
      assert !SizesInWindows(o, p) ==> table[..|sizes|][num - 1] == sizes[num - 1];
    }
  }

  /** `s` holds exactly the numbers of those of the first `k` messages that satisfy `f`. */
  ghost predicate Exactly(s: set<nat>, cs: seq<Case>, k: nat, f: Case -> bool)
    requires k <= |cs|
  {
    forall n :: n in s <==> 1 <= n <= k && f(cs[n - 1])
  }

  lemma ExactlyNext(s: set<nat>, cs: seq<Case>, k: nat, f: Case -> bool)
    requires k < |cs| && Exactly(s, cs, k, f)
    ensures Exactly(s + (if f(cs[k]) then {k + 1} else {}), cs, k + 1, f)
  {
  }

  /** The size of such a set. */
  lemma {:induction false} ExactlyCount(s: set<nat>, cs: seq<Case>, k: nat, f: Case -> bool)
    requires k <= |cs| && Exactly(s, cs, k, f)
    ensures |s| == CountIf(cs, k, f)
  {
    if k == 0 {
      assert s == {};
    } else {
      ExactlyBefore(s, cs, k, f);
      ExactlyCount(s - {k}, cs, k - 1, f);
    }
  }

  lemma ExactlyBefore(s: set<nat>, cs: seq<Case>, k: nat, f: Case -> bool)
    requires 0 < k <= |cs| && Exactly(s, cs, k, f)
    ensures Exactly(s - {k}, cs, k - 1, f)
    ensures |s| == |s - {k}| + One(f(cs[k - 1]))
  {
    assert k in s <==> f(cs[k - 1]);
    if k in s {
      assert s == (s - {k}) + {k};
    } else {
      assert s == s - {k};
    }
  }

  /** The conditions under which losing the server's copy of a message is allowed. */
  predicate Deletable(c: Case) {
    || (c.Old() && c.o.flush)
    || (c.Oversized() && c.o.limitflush)
    || (&& c.Fetched() && !c.o.keep && c.a.sinkOk
        && c.a.readErr != PS_TRANSIENT && c.a.readErr != PS_RETAINED && !c.BodyFailed()
        && (c.a.readErr != PS_REFUSED || !c.o.softbounce))
  }

  /** Consequences of an exact ledger: what may be deleted or marked, and that nothing is both. */
  lemma LedgerSafe(o: Options, p: Protocol, force: bool, known: bool, sizes: seq<int>, answers: seq<Answers>,
                   k: nat, deleted: set<nat>, seen: set<nat>, accepted: set<nat>)
    requires |sizes| == |answers| && k <= |sizes|
    requires var cs := Cases(o, p, force, known, sizes, answers);
             && Exactly(deleted, cs, k, (c: Case) => c.ToDelete())
             && Exactly(seen, cs, k, (c: Case) => c.ToMark())
             && Exactly(accepted, cs, k, (c: Case) => c.Accepted())
    ensures deleted !! seen
    ensures var cs := Cases(o, p, force, known, sizes, answers);
            && (forall n :: n in deleted ==> 1 <= n <= k && Deletable(cs[n - 1]))
            && (o.softbounce ==> forall n :: (n in deleted || n in seen) && cs[n - 1].Wanted() ==> n in accepted)
  {
    var cs := Cases(o, p, force, known, sizes, answers);
    forall i | 0 <= i < |cs| ensures !(cs[i].ToDelete() && cs[i].ToMark()) {
      GivingUp(cs[i]);
    }
  }

  class Pass {
    const o: Options
    const p: Protocol
    var errcount: nat
    /** Messages fetched; a mere check for mail leaves the server's number here, which may be negative. */
    var fetches: int
    var dispatches: nat
    var deletions: nat
    var transientErrors: nat
    /** Message numbers sent to the server for deletion, for marking, and confirmed by the sink, in this pass. */
    ghost var deleted: set<nat>
    ghost var seen: set<nat>
    ghost var accepted: set<nat>

    constructor (o: Options, p: Protocol)
      ensures this.o == o && this.p == p && fetches == errcount == deletions == dispatches == transientErrors == 0
    {
      this.o, this.p := o, p;
      errcount, fetches, dispatches, deletions, transientErrors := 0, 0, 0, 0, 0;
      deleted, seen, accepted := {}, {}, {};
    }

    /** The counters. */
    ghost function Now(): Totals
      reads this
    {
      Totals(fetches, dispatches, deletions, errcount, transientErrors)
    }

    /** Fetches and forwards a wanted message. */
    method Deliver(num: nat, ghost c: Case, a: Answers) returns (r: Outcome, suppressDelete: bool, suppressForward: bool, retained: bool)
      requires c.a == a && c.o == o && c.p == p && c.Wanted()
      modifies this`errcount, this`fetches, this`dispatches, this`transientErrors, this`accepted
      ensures r == if c.DeliveryErr() != 0 then Failed(c.DeliveryErr()) else if c.HeadersFailed() then Skipped else Handled
      ensures r.Handled? ==>
        && (suppressDelete <==> c.a.readErr == PS_RETAINED || c.a.readErr == PS_TRANSIENT || c.BodyFailed() || !a.sinkOk)
        && suppressForward == !c.Forwarded() && retained == c.Retained()
      ensures Now().(deletions := 0) == Plus(old(Now()), c).(deletions := 0)
      ensures accepted == old(accepted) + (if c.Accepted() then {num} else {})
    {
      suppressDelete, suppressForward, retained := false, false, false;
      if a.headersErr == PS_TRANSIENT {
        transientErrors := transientErrors + 1;
        r := Skipped;
        return;
      } else if a.headersErr != 0 {
        r := Failed(a.headersErr);
        return;
      }
      errcount := errcount + a.nameErrs;
      if a.readErr == PS_RETAINED {
        suppressForward, suppressDelete, retained := true, true, true;
      } else if a.readErr == PS_TRANSIENT {
        suppressDelete, suppressForward := true, true;
        transientErrors := transientErrors + 1;
      } else if a.readErr == PS_REFUSED {
        suppressForward := true;
      } else if a.readErr != 0 {
        r := Failed(a.readErr);
        return;
      }
      r, suppressDelete, suppressForward := Forward(num, c, a, suppressDelete, suppressForward, retained);
    }

    /** What follows the headers: the end of their response, the body, and the answer of the sink. */
    method Forward(num: nat, ghost c: Case, a: Answers, deleteSuppressed: bool, forwardSuppressed: bool, retained: bool)
      returns (r: Outcome, suppressDelete: bool, suppressForward: bool)
      requires c.a == a && c.o == o && c.p == p && c.HeadersRead() && (a.readErr == 0 || c.Rejected())
      requires forwardSuppressed == c.Rejected() && retained == c.Retained()
      requires deleteSuppressed <==> a.readErr == PS_RETAINED || a.readErr == PS_TRANSIENT
      modifies this`errcount, this`fetches, this`dispatches, this`transientErrors, this`accepted
      ensures r == if c.DeliveryErr() != 0 then Failed(c.DeliveryErr()) else Handled
      ensures r.Handled? ==>
        suppressDelete == (deleteSuppressed || c.BodyFailed() || !a.sinkOk) && suppressForward == !c.Forwarded()
      ensures fetches == old(fetches) + One(c.Fetched()) && dispatches == old(dispatches) + One(c.Forwarded())
      ensures errcount == old(errcount) + One(c.Unconfirmed())
      ensures transientErrors == old(transientErrors) + One(c.BodyReached() && a.readbodyErr == PS_TRANSIENT)
      ensures accepted == old(accepted) + (if c.Accepted() then {num} else {})
    {
      suppressDelete, suppressForward := deleteSuppressed, forwardSuppressed;
      if p.fetchBody && p.trail && a.headTrailErr != 0 {
        r := Failed(a.headTrailErr);
        return;
      }
      var err, transient := ReadBody(a, suppressForward, c);
      if transient {
        suppressDelete, suppressForward := true, true;
        transientErrors := transientErrors + 1;
      }
      if err != 0 {
        r := Failed(err);
        return;
      }
      if !suppressForward {
        dispatches := dispatches + 1;
      }
      if !a.sinkOk {
        errcount := errcount + 1;
        suppressDelete := true;
      } else if !suppressForward {
        accepted := accepted + {num};
      }
      if !retained {
        fetches := fetches + 1;
      }
      r := Handled;
    }

    /** Requests and reads the body, unless there is none or it is not wanted and need not be read. Returns the error that
        ends the pass, and whether delivery failed for the time being. */
    method ReadBody(a: Answers, suppressForward: bool, ghost c: Case) returns (err: int, transient: bool)
      requires c.a == a && c.p == p && suppressForward == c.Rejected()
      ensures err == if c.BodyRead() then c.BodyErr() else 0
      ensures transient <==> c.BodyFailed() && (p.fetchBody ==> a.bodyErr == 0)
    {
      err, transient := 0, false;
      var suppressReadbody := if p.fetchBody then suppressForward else a.noBody;
      if !suppressReadbody {
        if p.fetchBody && a.bodyErr != 0 {
          return a.bodyErr, false;
        }
        if a.readbodyErr == PS_TRANSIENT {
          transient := true;
        } else if a.readbodyErr != 0 {
          return a.readbodyErr, false;
        }
        if p.trail && a.trailErr != 0 {
          err := a.trailErr;
        }
      }
    }

    /** Handles one message whose size is known, from the decision to fetch it to flagging it on the server. */
    method HandleMessage(num: nat, isOld: bool, msgsize: int, a: Answers, ghost c: Case) returns (r: Outcome)
      requires c.a == a && c.o == o && c.p == p && isOld == c.Old() && (!isOld ==> c.size == msgsize)
      modifies this
      ensures r == c.Result()
      ensures Now() == Plus(old(Now()), c)
      ensures accepted == old(accepted) + (if c.Accepted() then {num} else {})
      ensures deleted == old(deleted) + (if c.ToDelete() then {num} else {})
      ensures seen == old(seen) + (if c.ToMark() then {num} else {})
    {
      var suppressDelete, suppressForward, retained := false, false, false;
      var tooLarge := false;
      if !isOld {
        tooLarge := o.limit > 0 && msgsize > o.limit;
        if tooLarge {
          if !o.limitflush {
            suppressDelete := true;
          }
        } else {
          r, suppressDelete, suppressForward, retained := Deliver(num, c, a);
          if !r.Handled? {
            return;
          }
        }
      }
      r := Flag(num, a, isOld, tooLarge, suppressDelete, suppressForward, retained);
    }

    /** Deletes the message on the server, marks it seen, or leaves it alone. */
    method Flag(num: nat, a: Answers, isOld: bool, tooLarge: bool, deleteSuppressed: bool, suppressForward: bool, retained: bool)
      returns (r: Outcome)
      modifies this`deletions, this`deleted, this`seen
      ensures var keeps := deleteSuppressed || (suppressForward && o.softbounce) || retained;
              var deletes := p.deleteMsg && !keeps
                && ((!isOld && !tooLarge && !o.keep) || (isOld && o.flush) || (tooLarge && o.limitflush));
              var marks := p.markSeen && !keeps && !deletes && !isOld && !tooLarge && o.keep;
        && deletions == old(deletions) + One(deletes)
        && deleted == old(deleted) + (if deletes then {num} else {})
        && seen == old(seen) + (if marks then {num} else {})
        && var err := if deletes then a.deleteErr else if marks then a.seenErr else 0;
        r == if err != 0 then Failed(err) else Handled
    {
      // what was not forwarded stays on the server when refusals may be temporary
      var suppressDelete := deleteSuppressed || (suppressForward && o.softbounce);
      var fetched := !isOld && !tooLarge;
      if retained {
        // stays on the server
      } else if p.deleteMsg && !suppressDelete
                && ((fetched && !o.keep) || (isOld && o.flush) || (tooLarge && o.limitflush)) {
        deletions := deletions + 1;
        deleted := deleted + {num};
        if a.deleteErr != 0 {
          r := Failed(a.deleteErr);
          return;
        }
      } else if p.markSeen && !suppressDelete && fetched && o.keep {
        seen := seen + {num};
        if a.seenErr != 0 {
          r := Failed(a.seenErr);
          return;
        }
      }
      r := Handled;
    }

    /** The ledger of the first `k` messages of a pass. */
    ghost predicate Recorded(cs: seq<Case>, k: nat)
      requires k <= |cs|
      reads this
    {
      && Exactly(deleted, cs, k, (c: Case) => c.ToDelete())
      && Exactly(seen, cs, k, (c: Case) => c.ToMark())
      && Exactly(accepted, cs, k, (c: Case) => c.Accepted())
    }

    /** Handles message `k + 1` and enters it in the ledger. */
    method HandleNext(k: nat, isOld: bool, msgsize: int, a: Answers, ghost cs: seq<Case>) returns (r: Outcome)
      requires k < |cs| && Recorded(cs, k)
      requires cs[k].a == a && cs[k].o == o && cs[k].p == p && isOld == cs[k].Old() && (!isOld ==> cs[k].size == msgsize)
      modifies this
      ensures Recorded(cs, k + 1) && Now() == Plus(old(Now()), cs[k]) && r == cs[k].Result()
    {
      ghost var c := cs[k];
      ExactlyNext(deleted, cs, k, (c: Case) => c.ToDelete());
      ExactlyNext(seen, cs, k, (c: Case) => c.ToMark());
      ExactlyNext(accepted, cs, k, (c: Case) => c.Accepted());
      r := HandleMessage(k + 1, isOld, msgsize, a, c);
    }

    /** One turn of the loop up to the check of the fetch limit. */
    method OneMessage(ghost table: array?<int>, msgsizes: array?<int>, fetchsizelimit: int, firstnum: nat, lastnum: nat,
                      num: nat, force: bool, sizes: seq<int>, answers: seq<Answers>, ghost cs: seq<Case>)
      returns (r: Outcome, firstnum': nat, lastnum': nat, ghost done: nat)
      requires |sizes| == |answers| && 1 <= num <= |sizes| && firstnum <= num
      requires cs == Cases(o, p, force, SizesInWindows(o, p) || table != null, sizes, answers)
      requires CacheValid(o, p, table, msgsizes, fetchsizelimit, firstnum, lastnum, sizes)
      requires Recorded(cs, num - 1)
      requires (SizesInWindows(o, p) ==> fetchsizelimit == WindowWidth(o, p)) && lastnum == LastSized(cs, WindowWidth(o, p), num - 1)
      modifies this, if SizesInWindows(o, p) then {msgsizes} else {}
      ensures num - 1 <= done <= num && Recorded(cs, done)
      ensures Now() == if done == num then Plus(old(Now()), cs[num - 1]) else old(Now())
      ensures if AsksSizes(cs, WindowWidth(o, p), num - 1) && answers[num - 1].sizesErr != 0
        then r == Failed(answers[num - 1].sizesErr) && done == num - 1
        else r == cs[num - 1].Result() && done == num
      ensures !r.Failed? ==>
        && CacheValid(o, p, table, msgsizes, fetchsizelimit, firstnum', lastnum', sizes)
        && firstnum' <= num && lastnum' == LastSized(cs, WindowWidth(o, p), num)
    {
      firstnum', lastnum' := firstnum, lastnum;
      done := num - 1;
      var a := answers[num - 1];
      var isOld := !(o.fetchall || force) && p.isOld && a.knownOld;
      var msgsize := 0;
      if !isOld {
        var err;
        msgsize, firstnum', lastnum', err := SizeOf(o, p, table, msgsizes, fetchsizelimit, firstnum, lastnum, num, a.sizesErr, sizes);
        if err != 0 {
          return Failed(err), firstnum', lastnum', done;
        }
      }
      r := HandleNext(num - 1, isOld, msgsize, a, cs);
      done := num;
    }

    /** The whole pass over `count` messages, whose true sizes are `sizes`. The sizes are known either from
        a table filled before, or fetched here window by window. */
    method Fetch(count: nat, table: array?<int>, maxfetch: nat, peekCapable: bool, sizes: seq<int>, answers: seq<Answers>)
      returns (err: int, ghost done: nat)
      requires count == |sizes| == |answers|
      requires table != null && !SizesInWindows(o, p) ==> table.Length >= count && table[..count] == sizes
      modifies this
      ensures var cs := Cases(o, p, !peekCapable && old(errcount) > 0, SizesInWindows(o, p) || table != null, sizes, answers);
        && done <= count && Recorded(cs, done)
        && Now() == After(old(Now()), cs, done)
        && fetches == old(fetches) + CountFetched(cs, done)
        && (err == PS_SUCCESS ==> done == count == Fates(cs, count))
        && Stop(err, done) == PassStop(cs, WindowWidth(o, p), maxfetch, old(fetches), 0)
      ensures deletions == old(deletions) + |deleted|
      ensures 0 <= dispatches - old(dispatches) <= fetches - old(fetches) <= count
      ensures maxfetch > 0 && old(fetches) < maxfetch ==> fetches <= maxfetch
    {
      var fetchsizelimit := o.fetchsizelimit;
      var msgsizes := table;
      if p.getpartialsizes && fetchsizelimit > 0 {
        if p.isPop3 {
          fetchsizelimit := 1;
        }
        msgsizes := new int[fetchsizelimit];
      }
      var force := !peekCapable && errcount > 0;
      deleted, seen, accepted := {}, {}, {};
      ghost var known := SizesInWindows(o, p) || table != null;
      ghost var cs := Cases(o, p, force, known, sizes, answers);
      err, done := Messages(count, table, msgsizes, fetchsizelimit, force, maxfetch, sizes, answers, cs);
      AfterCounts(old(Now()), cs, done);
      StopWithin(cs, WindowWidth(o, p), maxfetch, old(fetches));
      ExactlyCount(deleted, cs, done, (c: Case) => c.ToDelete());
    }

    /** The loop over the messages. */
    method Messages(count: nat, ghost table: array?<int>, msgsizes: array?<int>, fetchsizelimit: int, force: bool,
                    maxfetch: nat, sizes: seq<int>, answers: seq<Answers>, ghost cs: seq<Case>)
      returns (err: int, ghost done: nat)
      requires count == |sizes| == |answers|
      requires cs == Cases(o, p, force, SizesInWindows(o, p) || table != null, sizes, answers)
      requires CacheValid(o, p, table, msgsizes, fetchsizelimit, 1, 0, sizes)
      requires Recorded(cs, 0) && (SizesInWindows(o, p) ==> fetchsizelimit == WindowWidth(o, p))
      modifies this, if SizesInWindows(o, p) then {msgsizes} else {}
      ensures done <= count && Recorded(cs, done) && Now() == After(old(Now()), cs, done)
      ensures Stop(err, done) == PassStop(cs, WindowWidth(o, p), maxfetch, old(fetches), 0)
    {
      var firstnum: nat, lastnum: nat := 1, 0;
      ghost var base, width := Now(), WindowWidth(o, p);
      var num := 1;
      done := 0;
      while num <= count
        invariant 1 <= num <= count + 1 && done == num - 1 && firstnum <= num
        invariant CacheValid(o, p, table, msgsizes, fetchsizelimit, firstnum, lastnum, sizes)
        invariant Recorded(cs, done) && Now() == After(base, cs, done) && lastnum == LastSized(cs, width, done)
        invariant PassStop(cs, width, maxfetch, fetches, done) == PassStop(cs, width, maxfetch, base.fetches, 0)
      {
        var r: Outcome;
        r, firstnum, lastnum, done :=
          OneMessage(table, msgsizes, fetchsizelimit, firstnum, lastnum, num, force, sizes, answers, cs);
        if r.Failed? {
          err := r.err;
          return;
        }
        if r.Handled? && maxfetch != 0 && maxfetch <= fetches && num < count {
          err := PS_MAXFETCH;
          return;
        }
        num := num + 1;
      }
      err := PS_SUCCESS;
    }
  }
}
