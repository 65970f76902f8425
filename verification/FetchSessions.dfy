/** Sessions with a mail server: passes over folders, repolls, several sessions of one poll, and the
    fetch limit that is held across all of them. */
module FetchSessions {
  import opened FetchMessages
  import opened SessionRules

  /** The record of one pass that fetched: which poll of which folder, whether all messages counted as new, how many
      messages it came to, and which of them were deleted, marked seen and confirmed by the sink. */
  datatype PassLog = PassLog(
    folder: nat, poll: nat, force: bool, done: nat, deleted: set<nat>, seen: set<nat>, accepted: set<nat>)

  /** The pass came before poll `k` of folder `f`. */
  predicate Before(x: PassLog, f: nat, k: nat) { x.folder < f || (x.folder == f && x.poll < k) }

  ghost predicate AllBefore(h: seq<PassLog>, f: nat, k: nat) { forall i :: 0 <= i < |h| ==> Before(h[i], f, k) }

  lemma Later(h: seq<PassLog>, f: nat, k: nat)
    ensures AllBefore(h, f, k) ==> AllBefore(h, f, k + 1)
  {
  }

  /** The record fits the polls of the folders. */
  predicate Fits(folders: seq<seq<Poll>>, x: PassLog) {
    && x.folder < |folders| && x.poll < |folders[x.folder]|
    && var q := folders[x.folder][x.poll];
    Coherent(q) && 0 < q.count <= COUNT_LIMIT && x.done <= q.count
  }

  /** The cases of a recorded pass. */
  function CasesOf(o: Options, p: Protocol, folders: seq<seq<Poll>>, x: PassLog): (cs: seq<Case>)
    requires Fits(folders, x)
    ensures x.done <= |cs|
  {
    CasesFor(o, p, folders[x.folder][x.poll], x.force)
  }

  /** The records are of distinct polls, in order. */
  ghost predicate IsHistory(folders: seq<seq<Poll>>, h: seq<PassLog>) {
    && (forall i :: 0 <= i < |h| ==> Fits(folders, h[i]))
    && forall i, j :: 0 <= i < j < |h| ==> Before(h[i], h[j].folder, h[j].poll)
  }

  /** The record is exact: deleted, marked and accepted are the messages that the policy says. */
  ghost predicate Exact(o: Options, p: Protocol, folders: seq<seq<Poll>>, x: PassLog) {
    && Fits(folders, x)
    && var cs := CasesOf(o, p, folders, x);
    && Exactly(x.deleted, cs, x.done, (c: Case) => c.ToDelete())
    && Exactly(x.seen, cs, x.done, (c: Case) => c.ToMark())
    && Exactly(x.accepted, cs, x.done, (c: Case) => c.Accepted())
  }

  ghost predicate AllExact(o: Options, p: Protocol, folders: seq<seq<Poll>>, h: seq<PassLog>) {
    forall i :: 0 <= i < |h| ==> Exact(o, p, folders, h[i])
  }

  /** No message of the pass was lost without need: every deletion was permitted, none was deleted and marked as well, and
      with soft bounces every wanted message that was deleted or marked had been accepted. */
  ghost predicate Safe(o: Options, p: Protocol, folders: seq<seq<Poll>>, x: PassLog) {
    && Fits(folders, x) && x.deleted !! x.seen
    && var cs := CasesOf(o, p, folders, x);
    && (forall n :: n in x.deleted ==> 1 <= n <= x.done && Deletable(cs[n - 1]))
    && (forall n :: n in x.seen ==> 1 <= n <= x.done)
    && (o.softbounce ==> forall n :: (n in x.deleted || n in x.seen) && cs[n - 1].Wanted() ==> n in x.accepted)
  }

  lemma ExactSafe(o: Options, p: Protocol, folders: seq<seq<Poll>>, x: PassLog)
    requires Exact(o, p, folders, x)
    ensures Safe(o, p, folders, x)
  {
    var q := folders[x.folder][x.poll];
    LedgerSafe(o, p, x.force, p.getsizes || SizesInWindows(o, p), q.sizes, q.answers, x.done, x.deleted, x.seen, x.accepted);
  }

  /** The sessions of a poll, each with the record of its passes. */
  ghost predicate PollExact(o: Options, p: Protocol, scripts: seq<Script>, histories: seq<seq<PassLog>>) {
    |histories| <= |scripts| && forall i :: 0 <= i < |histories| ==> AllExact(o, p, scripts[i].folders, histories[i])
  }

  ghost predicate PollSafe(o: Options, p: Protocol, scripts: seq<Script>, histories: seq<seq<PassLog>>) {
    && |histories| <= |scripts|
    && forall i, j :: 0 <= i < |histories| && 0 <= j < |histories[i]| ==> Safe(o, p, scripts[i].folders, histories[i][j])
  }

  lemma PollIsSafe(o: Options, p: Protocol, scripts: seq<Script>, histories: seq<seq<PassLog>>)
    requires PollExact(o, p, scripts, histories)
    ensures PollSafe(o, p, scripts, histories)
  {
    forall i, j | 0 <= i < |histories| && 0 <= j < |histories[i]| ensures Safe(o, p, scripts[i].folders, histories[i][j]) {
      ExactSafe(o, p, scripts[i].folders, histories[i][j]);
    }
  }

  /** Folder `f` was polled, and fetched from if there was anything. */
  ghost predicate Visited(folders: seq<seq<Poll>>, h: seq<PassLog>, f: nat) {
    && f < |folders| && folders[f] != []
    && (folders[f][0].count <= 0 || exists x :: x in h && x.folder == f && x.poll == 0)
  }

  ghost predicate VisitedUpTo(folders: seq<seq<Poll>>, h: seq<PassLog>, n: nat) {
    forall f :: 0 <= f < n ==> Visited(folders, h, f)
  }

  lemma StillVisited(folders: seq<seq<Poll>>, h: seq<PassLog>, h': seq<PassLog>, n: nat)
    requires h <= h'
    ensures VisitedUpTo(folders, h, n) ==> VisitedUpTo(folders, h', n)
    ensures Visited(folders, h, n) ==> Visited(folders, h', n)
  {
    assert forall x :: x in h ==> x in h';
    forall f | 0 <= f <= n && Visited(folders, h, f) ensures Visited(folders, h', f) {
      if x :| x in h && x.folder == f && x.poll == 0 { assert x in h'; }
    }
  }

  /** The messages the recorded passes fetched, by the answers they got. */
  function Tally(o: Options, p: Protocol, folders: seq<seq<Poll>>, h: seq<PassLog>): nat
    requires forall i :: 0 <= i < |h| ==> Fits(folders, h[i])
  {
    if h == [] then 0
    else
      var x := h[|h| - 1];
      assert Fits(folders, x);
      Tally(o, p, folders, h[..|h| - 1]) + CountFetched(CasesOf(o, p, folders, x), x.done)
  }

  lemma TallyAppend(o: Options, p: Protocol, folders: seq<seq<Poll>>, h: seq<PassLog>, x: PassLog)
    requires IsHistory(folders, h) && AllExact(o, p, folders, h) && Exact(o, p, folders, x)
    requires AllBefore(h, x.folder, x.poll)
    ensures AllBefore(h + [x], x.folder, x.poll + 1)
    ensures IsHistory(folders, h + [x]) && AllExact(o, p, folders, h + [x])
    ensures Tally(o, p, folders, h + [x]) == Tally(o, p, folders, h) + CountFetched(CasesOf(o, p, folders, x), x.done)
  {
    assert (h + [x])[..|h|] == h;
  }

  /** Allocates the table of all sizes and has the server fill it. */
  method GetSizes(count: nat, sizes: seq<int>) returns (table: array<int>)
    requires |sizes| == count
    ensures fresh(table) && table[..] == sizes
  {
    table := new int[count];
    for i := 0 to count
      invariant forall k :: 0 <= k < i ==> table[k] == sizes[k]
    {
      table[i] := sizes[i];
    }
  }

  class Session {
    const o: Options
    const p: Protocol
    const idle: bool
    const checkOnly: bool
    const maxfetch: nat
    const folders: seq<seq<Poll>>
    const pass: Pass
    /** The error of the last pass. */
    var err: int
    ghost var history: seq<PassLog>

    ghost predicate Valid()
      reads this, pass
    {
      && pass.o == o && pass.p == p
      && CoherentFolders(folders)
      && IsHistory(folders, history) && AllExact(o, p, folders, history)
      && (!checkOnly ==> pass.fetches == Tally(o, p, folders, history))
    }

    /** What the session is told. */
    ghost function SetupOf(peekCapable: bool): Setup { Setup(o, p, idle, checkOnly, maxfetch, peekCapable) }

    /** All records are of polls before poll `k` of folder `f`. */
    ghost predicate Reached(f: nat, k: nat)
      reads this
    {
      AllBefore(history, f, k)
    }

    /** The fetch limit leaves room. */
    ghost predicate Room()
      reads this, pass
    {
      maxfetch > 0 && !checkOnly ==> pass.fetches < maxfetch
    }

    constructor (o: Options, p: Protocol, idle: bool, checkOnly: bool, maxfetch: nat, folders: seq<seq<Poll>>)
      requires CoherentFolders(folders)
      ensures Valid() && Room() && history == [] && err == 0 && fresh(pass) && pass.Now() == ZERO
      ensures this.folders == folders && forall peek :: SetupOf(peek) == Setup(o, p, idle, checkOnly, maxfetch, peek)
    {
      this.o, this.p, this.idle, this.checkOnly, this.maxfetch, this.folders := o, p, idle, checkOnly, maxfetch, folders;
      pass := new Pass(o, p);
      err := 0;
      history := [];
    }

    /** Asks for all sizes first if the protocol wants that, then fetches. `started` tells that fetching began; then `x` is
        the record of the pass. */
    method FetchPoll(f: nat, k: nat, peekCapable: bool) returns (r: int, started: bool, ghost x: PassLog)
      requires pass.o == o && pass.p == p && CoherentFolders(folders)
      requires f < |folders| && k < |folders[f]| && folders[f][k].count > 0
      modifies pass
      ensures var u, q := SetupOf(peekCapable), folders[f][k];
        && started == Starts(u, q) && r == FetchStop(u, q, old(pass.Now())).err && (!started ==> r != 0)
        && pass.Now() == FetchAfter(u, q, old(pass.Now()))
        && (r == PS_SUCCESS ==> x.done == q.count)
      ensures !started ==> pass.fetches == old(pass.fetches)
      ensures started ==> x.folder == f && x.poll == k && Exact(o, p, folders, x)
      ensures started ==> pass.fetches == old(pass.fetches) + CountFetched(CasesOf(o, p, folders, x), x.done)
      ensures maxfetch > 0 && old(pass.fetches) < maxfetch ==> pass.fetches <= maxfetch
    {
      var q := folders[f][k];
      started, x := false, PassLog(f, k, false, 0, {}, {}, {});
      if q.count > COUNT_LIMIT {
        r := PS_PROTOCOL;
        return;
      }
      var table: array?<int> := null;
      if p.getsizes && !(p.getpartialsizes && o.fetchsizelimit > 0) {
        if q.sizesErr != 0 {
          r := q.sizesErr;
          return;
        }
        table := GetSizes(q.count, q.sizes);
      }
      started := true;
      ghost var force := !peekCapable && pass.errcount > 0;
      ghost var done;
      r, done := pass.Fetch(q.count, table, maxfetch, peekCapable, q.sizes, q.answers);
      x := PassLog(f, k, force, done, pass.deleted, pass.seen, pass.accepted);
      assert CasesOf(o, p, folders, x) == CasesFor(o, p, q, force);
    }

    /** Fetches the messages of one pass and records it. */
    method FetchPass(f: nat, k: nat, peekCapable: bool) returns (r: int, started: bool)
      requires Valid() && Room() && !checkOnly && Reached(f, k)
      requires f < |folders| && k < |folders[f]| && folders[f][k].count > 0
      modifies pass, this`history
      ensures Valid() && Reached(f, k + 1) && old(history) <= history
      ensures maxfetch > 0 ==> pass.fetches <= maxfetch
      ensures started ==> |history| > 0 && history[|history| - 1].folder == f && history[|history| - 1].poll == k
      ensures r == PS_SUCCESS ==> started && history[|history| - 1].done == folders[f][k].count
      ensures var u, q := SetupOf(peekCapable), folders[f][k];
        && started == Starts(u, q) && r == FetchStop(u, q, old(pass.Now())).err && (!started ==> r != 0)
        && pass.Now() == FetchAfter(u, q, old(pass.Now()))
    {
      ghost var x;
      r, started, x := FetchPoll(f, k, peekCapable);
      Later(history, f, k);
      if started {
        Enter(x);
      }
    }

    /** Adds the record of the pass that was just made. */
    ghost method Enter(x: PassLog)
      requires pass.o == o && pass.p == p && CoherentFolders(folders)
      requires IsHistory(folders, history) && AllExact(o, p, folders, history) && Reached(x.folder, x.poll)
      requires Exact(o, p, folders, x)
      requires pass.fetches == Tally(o, p, folders, history) + CountFetched(CasesOf(o, p, folders, x), x.done)
      modifies this`history
      ensures Valid() && Reached(x.folder, x.poll + 1) && history == old(history) + [x]
    {
      TallyAppend(o, p, folders, history, x);
      history := history + [x];
    }

    /** One pass over a folder. */
    method OnePass(f: nat, k: nat, peekCapable: bool) returns (r: PassEnd)
      requires Valid() && Room() && Reached(f, k) && f < |folders| && k < |folders[f]|
      modifies pass, this`err, this`history
      ensures Valid() && Reached(f, k + 1) && old(history) <= history
      ensures r.Repoll? || r.NextFolder? ==> Room()
      ensures !r.Broken? && !checkOnly && k == 0 ==> Visited(folders, history, f)
      ensures maxfetch > 0 && !checkOnly ==> pass.fetches <= maxfetch
      ensures var u, q := SetupOf(peekCapable), folders[f][k];
        && r == PollEnd(u, q, old(pass.Now())) && pass.Now() == PollAfter(u, q, old(pass.Now()))
        && (!r.Broken? ==> err == PollErr(u, q, old(pass.Now())))
    {
      var q := folders[f][k];
      pass.dispatches, pass.transientErrors := 0, 0;
      err := q.rangeErr;
      if err != 0 {
        return Broken(err);
      }
      if q.count == 0 {
        return NextFolder;
      }
      if checkOnly {
        pass.fetches := if q.newm == -1 || o.fetchall then q.count else q.newm;
      } else if q.count > 0 {
        var started;
        err, started := FetchPass(f, k, peekCapable);
        if !started || (err != PS_SUCCESS && err != PS_MAXFETCH) {
          return Broken(err);
        }
        assert history[|history| - 1] in history;
      }
      r := EndPass(q, peekCapable);
    }

    /** The end of the mailbox, and what to do next. */
    method EndPass(q: Poll, ghost peekCapable: bool) returns (r: PassEnd)
      modifies this`err
      ensures r == EndOf(SetupOf(peekCapable), q, pass.Now()) && (r.Broken? ==> r.err != 0)
      ensures !r.Broken? ==> err == old(err)
      ensures r.Repoll? || r.NextFolder? ==> maxfetch == 0 || pass.fetches < maxfetch
    {
      if p.endMailboxPoll && q.endErr != 0 {
        err := q.endErr;
        return Broken(err);
      }
      if maxfetch != 0 && maxfetch <= pass.fetches {
        return LimitReached;
      }
      return if p.retry && (pass.dispatches > 0 || idle) && pass.errcount == 0 then Repoll else NextFolder;
    }

    /** All passes over all folders. Returns the error to clean up after, or `0` for an orderly end. */
    method AllFolders(peekCapable: bool) returns (broken: int)
      requires Valid() && Room() && history == [] && err == 0
      modifies pass, this`err, this`history
      ensures Valid()
      ensures maxfetch > 0 && !checkOnly ==> pass.fetches <= maxfetch
      ensures broken == 0 && !checkOnly && (maxfetch == 0 || pass.fetches < maxfetch) ==>
        VisitedUpTo(folders, history, |folders|)
      ensures var e := FoldersEnd(SetupOf(peekCapable), folders, 0, old(pass.Now()), 0);
        && pass.Now() == e.totals
        && if e.end.Broken? then broken == e.end.err != 0 else broken == 0 && err == e.err
    {
      ghost var u := SetupOf(peekCapable);
      ghost var target := FoldersEnd(u, folders, 0, pass.Now(), 0);
      for f := 0 to |folders|
        invariant Valid() && Room() && Reached(f, 0)
        invariant !checkOnly ==> VisitedUpTo(folders, history, f)
        invariant FoldersEnd(u, folders, f, pass.Now(), err) == target
      {
        var r := OneFolder(f, peekCapable);
        match r
        case Broken(e) => return e;
        case LimitReached => return 0;
        case NextFolder =>
        case Repoll => assert false;
      }
      return 0;
    }

    /** All passes over one folder. */
    method OneFolder(f: nat, peekCapable: bool) returns (r: PassEnd)
      requires Valid() && Room() && f < |folders| && Reached(f, 0) && (!checkOnly ==> VisitedUpTo(folders, history, f))
      modifies pass, this`err, this`history
      ensures Valid() && !r.Repoll? && (maxfetch > 0 && !checkOnly ==> pass.fetches <= maxfetch)
      ensures r.NextFolder? ==> Room() && Reached(f + 1, 0) && (!checkOnly ==> VisitedUpTo(folders, history, f + 1))
      ensures r.LimitReached? ==> 0 < maxfetch <= pass.fetches
      ensures r.Broken? ==> r.err != 0
      ensures var e := FolderEnd(SetupOf(peekCapable), folders[f], 0, old(pass.Now()), old(err));
        r == e.end && pass.Now() == e.totals && (!r.Broken? ==> err == e.err)
    {
      ghost var u, polls := SetupOf(peekCapable), folders[f];
      ghost var target := FolderEnd(u, polls, 0, pass.Now(), err);
      var k := 0;
      while true
        invariant k <= |polls| && Valid() && Room() && Reached(f, k)
        invariant !checkOnly ==> VisitedUpTo(folders, history, f)
        invariant !checkOnly && k > 0 ==> Visited(folders, history, f)
        invariant FolderEnd(u, polls, k, pass.Now(), err) == target
        decreases |polls| - k
      {
        if k == |folders[f]| {
          return Broken(PS_SOCKET);
        }
        ghost var before := history;
        r := OnePass(f, k, peekCapable);
        StillVisited(folders, before, history, f);
        k := k + 1;
        if !r.Repoll? {
          return;
        }
      }
    }
  }

  /** A whole session: how it ends, how many messages it fetched, and the record of its passes. */
  method DoSession(o: Options, p: Protocol, idle: bool, checkOnly: bool, maxfetch: nat, s: Script)
    returns (err: int, fetched: int, ghost history: seq<PassLog>)
    requires CoherentScript(s)
    ensures maxfetch > 0 && !checkOnly ==> fetched <= maxfetch
    ensures IsHistory(s.folders, history) && (!checkOnly ==> fetched == Tally(o, p, s.folders, history))
    ensures AllExact(o, p, s.folders, history)
    ensures s.setupErr != 0 ==> err == s.setupErr && fetched == 0
    ensures err == PS_SUCCESS ==> fetched != 0 && s.logoutErr == PS_SUCCESS
    ensures Outturn(err, fetched) == SessionEnd(Setup(o, p, idle, checkOnly, maxfetch, s.peekCapable), s)
    ensures var orderly := s.setupErr == 0 && !Polled(Setup(o, p, idle, checkOnly, maxfetch, s.peekCapable), s).end.Broken?;
      orderly && !checkOnly && (maxfetch == 0 || fetched < maxfetch) ==> VisitedUpTo(s.folders, history, |s.folders|)
  {
    history := [];
    if s.setupErr != 0 {
      return s.setupErr, 0, [];
    }
    var session := new Session(o, p, idle, checkOnly, maxfetch, s.folders);
    err := session.AllFolders(s.peekCapable);
    fetched, history := session.pass.fetches, session.history;
    if err == 0 {
      err := session.err;
      if s.logoutErr != PS_SUCCESS {
        err := s.logoutErr;
      } else if err == PS_SUCCESS && fetched == 0 {
        err := PS_NOMAIL;
      }
    }
    if s.wrapupFails && err == PS_SUCCESS {
      err := PS_SYNTAX;
    }
  }

  /** All sessions of one poll. `limits` are the fetch limits the sessions were given, `fetched` the numbers
      of messages they fetched. `scripts` lists the sessions the environment has to offer; after
      those no connection is made. */
  method DoProtocol(o: Options, p: Protocol, idle: bool, checkOnly: bool, fetchlimit: int, expungeOpt: int, scripts: seq<Script>)
    returns (err: int, fetched: seq<int>, limits: seq<nat>, ghost histories: seq<seq<PassLog>>)
    requires CoherentScripts(scripts)
    // with a limit: it holds across all sessions, no session is given 0 for "unlimited", and there
    // are at most as many sessions as messages allowed
    ensures InBudget(Sessions(err, limits, fetched), ValueOut(fetchlimit), checkOnly)
    // an explicit "no limit" ends the poll after its first session, even if that session had to stop early
    ensures fetchlimit < 0 || OneSession(o, p, expungeOpt) ==> |limits| <= 1
    ensures Sessions(err, limits, fetched) == PollRun(Setup(o, p, idle, checkOnly, 0, false), fetchlimit, expungeOpt, scripts)
    // over the whole poll no message is lost without need
    ensures |histories| == |fetched| && PollExact(o, p, scripts, histories) && PollSafe(o, p, scripts, histories)
    // several sessions stop on a session that had to stop early only when the whole limit is used up
    ensures err == PS_MAXFETCH && !OneSession(o, p, expungeOpt) && fetchlimit >= 0 ==> fetchlimit > 0 && Sum(limits) == fetchlimit
  {
    fetched, limits, histories := [], [], [];
    var u := Setup(o, p, idle, checkOnly, 0, false);
    if !p.isOld && (o.flush || o.fetchall) {
      return PS_SYNTAX, [], [], [];
    }
    if !(p.getsizes || p.getpartialsizes) && o.limit != 0 {
      return PS_SYNTAX, [], [], [];
    }
    if OneSession(o, p, expungeOpt) {
      err, fetched, limits, histories := SingleSession(o, p, idle, checkOnly, ValueOut(fetchlimit), scripts);
    } else {
      err, fetched, limits, histories := ManySessions(u, fetchlimit, expungeOpt, scripts, ProspectOf(u, scripts));
    }
    assert Sessions(err, limits, fetched) == PollRun(u, fetchlimit, expungeOpt, scripts);
    assert PollSafe(o, p, scripts, histories) by { PollIsSafe(o, p, scripts, histories); }
    PollWithinLimit(u, fetchlimit, expungeOpt, scripts);
  }

  /** The only session of a poll, given the whole limit. */
  method SingleSession(o: Options, p: Protocol, idle: bool, checkOnly: bool, limit: nat, scripts: seq<Script>)
    returns (err: int, fetched: seq<int>, limits: seq<nat>, ghost histories: seq<seq<PassLog>>)
    requires CoherentScripts(scripts)
    ensures limits == [limit]
    ensures if scripts == [] then err == PS_SOCKET && fetched == []
      else |fetched| == 1 && Outturn(err, fetched[0]) == SessionEnd(Setup(o, p, idle, checkOnly, limit, false), scripts[0])
    ensures |histories| == |fetched| && PollExact(o, p, scripts, histories)
  {
    if scripts == [] {
      return PS_SOCKET, [], [limit], [];
    }
    var n;
    ghost var history;
    err, n, history := DoSession(o, p, idle, checkOnly, limit, scripts[0]);
    fetched, limits, histories := [n], [limit], [history];
  }

  /** Several sessions, each fetching a limited number of messages. */
  method ManySessions(u: Setup, fetchlimit: int, expungeOpt: int, scripts: seq<Script>, ghost run: Prospect)
    returns (err: int, fetched: seq<int>, limits: seq<nat>, ghost histories: seq<seq<PassLog>>)
    requires Plays(run, u, scripts)
    ensures Sessions(err, limits, fetched) ==
      RunSessions(run, |scripts|, fetchlimit, 0, 0, 0, ValueOut(expungeOpt))
    ensures |histories| == |fetched| && PollExact(u.o, u.p, scripts, histories)
  {
    var totalcount: nat, lockouts: nat, expunge: nat := 0, 0, ValueOut(expungeOpt);
    fetched, limits, histories := [], [], [];
    ghost var target := RunSessions(run, |scripts|, fetchlimit, 0, 0, 0, expunge);
    var k := 0;
    while true
      invariant k == |histories| == |fetched| <= |scripts| && PollExact(u.o, u.p, scripts, histories)
      invariant fetchlimit > 0 ==> totalcount < fetchlimit
      invariant Behind(limits, fetched, RunSessions(run, |scripts|, fetchlimit, k, totalcount, lockouts, expunge)) == target
      decreases |scripts| - k
    {
      ghost var all := RunSessions(run, |scripts|, fetchlimit, k, totalcount, lockouts, expunge);
      RunStep(run, |scripts|, fetchlimit, k, totalcount, lockouts, expunge);
      var limit := ValueOut(fetchlimit);
      if limit > 0 && (expunge == 0 || expunge > limit - totalcount) {
        expunge := limit - totalcount;
      }
      if k == |scripts| {
        assert all == Sessions(PS_SOCKET, [expunge], []) && fetched + [] == fetched;
        return PS_SOCKET, fetched, limits + [expunge], histories;
      }
      var n, again;
      ghost var history;
      totalcount := totalcount + expunge;
      err, n, again, lockouts, history := NextSession(u, fetchlimit, scripts, k, totalcount, lockouts, expunge, run);
      k := k + 1;
      if !again {
        assert all == Sessions(err, [expunge], [n]);
        return err, fetched + [n], limits + [expunge], histories + [history];
      }
      JoinNext(limits, fetched, expunge, n, RunSessions(run, |scripts|, fetchlimit, k, totalcount, lockouts, expunge));
      fetched, limits, histories := fetched + [n], limits + [expunge], histories + [history];
    }
  }

  /** One session of several, and whether another follows when `totalcount` messages have been allowed. */
  method NextSession(u: Setup, fetchlimit: int, scripts: seq<Script>, k: nat, totalcount: nat, lockouts: nat, expunge: nat,
                     ghost run: Prospect)
    returns (err: int, n: int, again: bool, lockouts': nat, ghost history: seq<PassLog>)
    requires Plays(run, u, scripts) && k < |scripts|
    ensures AllExact(u.o, u.p, scripts[k].folders, history)
    ensures Outturn(err, n) == run(k, expunge)
    ensures again == !((fetchlimit != 0 && totalcount >= ValueOut(fetchlimit)) || !TryAgain(err, lockouts))
    ensures again ==> lockouts' == NextLockouts(err, lockouts)
  {
    err, n, history := DoSession(u.o, u.p, u.idle, u.checkOnly, expunge, scripts[k]);
    assert Outturn(err, n) == SessionEnd(Limited(u, expunge, scripts, k), scripts[k]);
    again, lockouts' := false, lockouts;
    if fetchlimit != 0 && totalcount >= ValueOut(fetchlimit) {
      return;
    }
    if err != PS_LOCKBUSY {
      lockouts' := 0;
    } else if lockouts >= MAX_LOCKOUTS {
      return;
    } else {
      lockouts' := lockouts + 1;
    }
    again := err == PS_MAXFETCH || err == PS_LOCKBUSY;
  }

  /** Sessions behind others. */
  ghost function Behind(limits: seq<nat>, fetched: seq<int>, rest: Sessions): Sessions {
    Sessions(rest.err, limits + rest.limits, fetched + rest.fetched)
  }

  lemma JoinNext(limits: seq<nat>, fetched: seq<int>, x: nat, n: int, rest: Sessions)
    ensures Behind(limits, fetched, Behind([x], [n], rest)) == Behind(limits + [x], fetched + [n], rest)
  {
    assert limits + ([x] + rest.limits) == limits + [x] + rest.limits;
    assert fetched + ([n] + rest.fetched) == fetched + [n] + rest.fetched;
  }

  /** One session ahead of the others. */
  lemma RunStep(run: Prospect, n: nat, fetchlimit: int, k: nat, total: nat, lockouts: nat, expunge: nat)
    requires k <= n && (fetchlimit > 0 ==> total < fetchlimit)
    ensures var x := NextLimit(ValueOut(fetchlimit), expunge, total);
            var all := RunSessions(run, n, fetchlimit, k, total, lockouts, expunge);
      if k == n then all == Sessions(PS_SOCKET, [x], [])
      else
        var e := run(k, x);
        if (fetchlimit != 0 && total + x >= ValueOut(fetchlimit)) || !TryAgain(e.err, lockouts)
        then all == Sessions(e.err, [x], [e.fetched])
        else all == Behind([x], [e.fetched], RunSessions(run, n, fetchlimit, k + 1, total + x, NextLockouts(e.err, lockouts), x))
  {
  }
}
