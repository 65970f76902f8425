/** What a session, and a poll of several sessions, comes to: the rules that the session driver is held to, as functions
    of the answers of the environment, and what follows from them. */
module SessionRules {
  import opened FetchMessages

  /** The server's answers to one pass over a folder. */
  datatype Poll = Poll(
    rangeErr: int,            // asking how many messages there are
    count: int, newm: int,
    sizesErr: int,            // asking for all sizes
    sizes: seq<int>, answers: seq<Answers>,
    endErr: int)              // end of the mailbox

  /** One whole session as the environment plays it. A server whose list of polls is used up has dropped
      the connection. */
  datatype Script = Script(
    setupErr: int,            // connecting and logging in
    peekCapable: bool,
    folders: seq<seq<Poll>>,
    logoutErr: int,
    wrapupFails: bool)

  /** The largest message count a session believes. */
  const COUNT_LIMIT := 0x7fff_ffff / 4

  /** What the server counts, sizes and answers fits together. */
  predicate Coherent(q: Poll) {
    q.count > 0 ==> |q.sizes| == |q.answers| == q.count
  }

  predicate CoherentScript(s: Script) { CoherentFolders(s.folders) }

  /** The cases of a pass over what the server answered. */
  function CasesFor(o: Options, p: Protocol, q: Poll, force: bool): (cs: seq<Case>)
    requires Coherent(q) && q.count > 0
    ensures |cs| == q.count
  {
    Cases(o, p, force, p.getsizes || SizesInWindows(o, p), q.sizes, q.answers)
  }

  /** How one pass over a folder ends. */
  datatype PassEnd = Repoll | NextFolder | LimitReached | Broken(err: int)

  /** A number option: zero means not given, a negative value means an explicit zero. */
  function ValueOut(n: int): nat { if n < 0 then 0 else n }

  const MAX_LOCKOUTS := 5

  /** The poll is done in one session: nothing is expunged, or the protocol expunges by itself. */
  predicate OneSession(o: Options, p: Protocol, expungeOpt: int) {
    (o.keep && !o.flush) || p.retry || expungeOpt == 0
  }

  /** What a session is told: the options, and how many messages it may fetch, where 0 means no limit. */
  datatype Setup = Setup(o: Options, p: Protocol, idle: bool, checkOnly: bool, maxfetch: nat, peekCapable: bool)

  const ZERO: Totals := Totals(0, 0, 0, 0, 0)

  // ----- One pass over a folder -----

  /** All sizes are asked for before the pass. */
  predicate AsksAllSizes(u: Setup) { u.p.getsizes && !SizesInWindows(u.o, u.p) }

  /** Fetching begins: the count is credible and the sizes are known if they are needed first. */
  predicate Starts(u: Setup, q: Poll) { q.count <= COUNT_LIMIT && (AsksAllSizes(u) ==> q.sizesErr == 0) }

  /** The cases of the pass, when the counters stand at `t`. */
  function PassCases(u: Setup, q: Poll, t: Totals): (cs: seq<Case>)
    requires Coherent(q) && q.count > 0
    ensures |cs| == q.count
  {
    CasesFor(u.o, u.p, q, !u.peekCapable && t.errcount > 0)
  }

  /** How fetching the messages ends. */
  function FetchStop(u: Setup, q: Poll, t: Totals): Stop
    requires Coherent(q) && q.count > 0
  {
    if q.count > COUNT_LIMIT then Stop(PS_PROTOCOL, 0)
    else if AsksAllSizes(u) && q.sizesErr != 0 then Stop(q.sizesErr, 0)
    else PassStop(PassCases(u, q, t), WindowWidth(u.o, u.p), u.maxfetch, t.fetches, 0)
  }

  /** The counters when fetching has ended. */
  function FetchAfter(u: Setup, q: Poll, t: Totals): Totals
    requires Coherent(q) && q.count > 0
  {
    if !Starts(u, q) then t
    else
      StopWithin(PassCases(u, q, t), WindowWidth(u.o, u.p), u.maxfetch, t.fetches);
      After(t, PassCases(u, q, t), FetchStop(u, q, t).done)
  }

  /** Messages are fetched in this pass. */
  predicate Fetches(u: Setup, q: Poll) { q.rangeErr == 0 && !u.checkOnly && q.count > 0 }

  /** Two counters start over with every pass. */
  function StartOver(t: Totals): Totals { t.(dispatches := 0, transientErrors := 0) }

  /** The counters after the pass. */
  function PollAfter(u: Setup, q: Poll, t: Totals): Totals
    requires Coherent(q)
  {
    if Fetches(u, q) then FetchAfter(u, q, StartOver(t))
    else if q.rangeErr == 0 && q.count != 0 && u.checkOnly then
      StartOver(t).(fetches := if q.newm == -1 || u.o.fetchall then q.count else q.newm)
    else StartOver(t)
  }

  /** The error that is kept when the session goes on or ends in order. */
  function PollErr(u: Setup, q: Poll, t: Totals): int
    requires Coherent(q)
  {
    if Fetches(u, q) then FetchStop(u, q, StartOver(t)).err else 0
  }

  /** Fetching ended with an error that ends the session. */
  predicate FetchBreaks(u: Setup, q: Poll, t: Totals)
    requires Coherent(q)
  {
    Fetches(u, q) && (!Starts(u, q) || (PollErr(u, q, t) != PS_SUCCESS && PollErr(u, q, t) != PS_MAXFETCH))
  }

  /** How a pass ends that got through to the end of the mailbox. */
  function EndOf(u: Setup, q: Poll, after: Totals): PassEnd {
    if u.p.endMailboxPoll && q.endErr != 0 then Broken(q.endErr)
    else if 0 < u.maxfetch <= after.fetches then LimitReached
    else if u.p.retry && (after.dispatches > 0 || u.idle) && after.errcount == 0 then Repoll
    else NextFolder
  }

  /** How the pass ends. */
  function PollEnd(u: Setup, q: Poll, t: Totals): PassEnd
    requires Coherent(q)
  {
    if q.rangeErr != 0 then Broken(q.rangeErr)
    else if q.count == 0 then NextFolder
    else if FetchBreaks(u, q, t) then Broken(PollErr(u, q, t))
    else EndOf(u, q, PollAfter(u, q, t))
  }

  // ----- All folders, and the session -----

  predicate CoherentFolder(polls: seq<Poll>) { forall j :: 0 <= j < |polls| ==> Coherent(polls[j]) }

  predicate CoherentFolders(folders: seq<seq<Poll>>) { forall i :: 0 <= i < |folders| ==> CoherentFolder(folders[i]) }

  /** How polling ended, the counters then, and the error that was kept. */
  datatype Ended = Ended(end: PassEnd, totals: Totals, err: int)

  /** Polling one folder from its poll `k` on, again and again while that is worth it. */
  function FolderEnd(u: Setup, polls: seq<Poll>, k: nat, t: Totals, err: int): Ended
    requires CoherentFolder(polls) && k <= |polls|
    decreases |polls| - k
  {
    if k == |polls| then Ended(Broken(PS_SOCKET), t, err)
    else
      var q := polls[k];
      var end, t', err' := PollEnd(u, q, t), PollAfter(u, q, t), PollErr(u, q, t);
      if end.Repoll? then FolderEnd(u, polls, k + 1, t', err') else Ended(end, t', err')
  }

  /** Polling the folders from folder `f` on. */
  function FoldersEnd(u: Setup, folders: seq<seq<Poll>>, f: nat, t: Totals, err: int): Ended
    requires CoherentFolders(folders) && f <= |folders|
    decreases |folders| - f
  {
    if f == |folders| then Ended(NextFolder, t, err)
    else
      var e := FolderEnd(u, folders[f], 0, t, err);
      if e.end.NextFolder? then FoldersEnd(u, folders, f + 1, e.totals, e.err) else e
  }

  /** How the polling of a script ends. */
  function Polled(u: Setup, s: Script): Ended
    requires CoherentScript(s)
  {
    FoldersEnd(u.(peekCapable := s.peekCapable), s.folders, 0, ZERO, 0)
  }

  /** A session's error and the messages it fetched. */
  datatype Outturn = Outturn(err: int, fetched: int)

  function SessionEnd(u: Setup, s: Script): Outturn
    requires CoherentScript(s)
  {
    if s.setupErr != 0 then Outturn(s.setupErr, 0)
    else
      var e := Polled(u, s);
      var err :=
        if e.end.Broken? then e.end.err
        else if s.logoutErr != 0 then s.logoutErr
        else if e.err == PS_SUCCESS && e.totals.fetches == 0 then PS_NOMAIL
        else e.err;
      Outturn(if s.wrapupFails && err == PS_SUCCESS then PS_SYNTAX else err, e.totals.fetches)
  }

  // ----- Several sessions -----

  /** All sessions of a poll: the error it ends with, the limits they were given, and what they fetched. */
  datatype Sessions = Sessions(err: int, limits: seq<nat>, fetched: seq<int>)

  predicate CoherentScripts(scripts: seq<Script>) { forall i :: 0 <= i < |scripts| ==> CoherentScript(scripts[i]) }

  /** The limit of the next session, when `total` messages have been allowed so far: never more than is left. */
  function NextLimit(limit: nat, expunge: nat, total: nat): (x: nat)
    requires limit > 0 ==> total < limit
    ensures limit > 0 ==> 0 < x <= limit - total
  {
    if limit > 0 && (expunge == 0 || expunge > limit - total) then limit - total else expunge
  }

  /** How each session of a poll would end, given its limit. */
  type Prospect = (nat, nat) -> Outturn

  /** The sessions that the environment plays. */
  function ProspectOf(u: Setup, scripts: seq<Script>): Prospect
    requires CoherentScripts(scripts)
    ensures Plays(ProspectOf(u, scripts), u, scripts)
  {
    (i: nat, x: nat) =>
      if i < |scripts| && CoherentScript(scripts[i]) then SessionEnd(u.(maxfetch := x), scripts[i]) else Outturn(PS_SOCKET, 0)
  }

  /** The sessions are those of the scripts. */
  ghost predicate Plays(run: Prospect, u: Setup, scripts: seq<Script>) {
    && CoherentScripts(scripts)
    && forall i: nat, x: nat {:trigger Limited(u, x, scripts, i)} :: i < |scripts| ==>
         run(i, x) == SessionEnd(Limited(u, x, scripts, i), scripts[i])
  }

  /** What session `i` is told when its limit is `x`. */
  function Limited(u: Setup, x: nat, scripts: seq<Script>, i: nat): Setup
    requires i < |scripts|
  {
    u.(maxfetch := x)
  }

  /** Of `n` sessions those from session `k` on, after `lockouts` sessions in a row that found the mailbox locked. */
  function RunSessions(run: Prospect, n: nat, fetchlimit: int, k: nat, total: nat, lockouts: nat, expunge: nat): Sessions
    requires k <= n && (fetchlimit > 0 ==> total < fetchlimit)
    decreases n - k
  {
    var limit := ValueOut(fetchlimit);
    var x := NextLimit(limit, expunge, total);
    if k == n then Sessions(PS_SOCKET, [x], [])
    else
      var e := run(k, x);
      if (fetchlimit != 0 && total + x >= limit) || !TryAgain(e.err, lockouts) then Sessions(e.err, [x], [e.fetched])
      else
        var rest := RunSessions(run, n, fetchlimit, k + 1, total + x, NextLockouts(e.err, lockouts), x);
        Sessions(rest.err, [x] + rest.limits, [e.fetched] + rest.fetched)
  }

  /** Another session follows one that had to stop early or, a few times in a row, one that found the mailbox locked. */
  predicate TryAgain(err: int, lockouts: nat) {
    err == PS_MAXFETCH || (err == PS_LOCKBUSY && lockouts < MAX_LOCKOUTS)
  }

  /** How many sessions in a row have found the mailbox locked. */
  function NextLockouts(err: int, lockouts: nat): nat { if err == PS_LOCKBUSY then lockouts + 1 else 0 }

  /** The options ask for something the protocol cannot do. */
  predicate Unsupported(o: Options, p: Protocol) {
    || (!p.isOld && (o.flush || o.fetchall))
    || (!(p.getsizes || p.getpartialsizes) && o.limit != 0)
  }

  /** A whole poll. */
  function PollRun(u: Setup, fetchlimit: int, expungeOpt: int, scripts: seq<Script>): Sessions
    requires CoherentScripts(scripts)
  {
    if Unsupported(u.o, u.p) then Sessions(PS_SYNTAX, [], [])
    else if !OneSession(u.o, u.p, expungeOpt) then
      RunSessions(ProspectOf(u, scripts), |scripts|, fetchlimit, 0, 0, 0, ValueOut(expungeOpt))
    else if scripts == [] then Sessions(PS_SOCKET, [ValueOut(fetchlimit)], [])
    else
      var e := SessionEnd(u.(maxfetch := ValueOut(fetchlimit)), scripts[0]);
      Sessions(e.err, [ValueOut(fetchlimit)], [e.fetched])
  }

  // ----- Why a session ends as it does -----

  /** All errors that are answered about a message. */
  function ErrorsOf(a: Answers): set<int> {
    {a.sizesErr, a.headersErr, a.readErr, a.headTrailErr, a.bodyErr, a.readbodyErr, a.trailErr, a.deleteErr, a.seenErr}
  }

  /** The error is the answer to something asked in this pass. */
  ghost predicate Answered(q: Poll, err: int) {
    err == q.rangeErr || err == q.sizesErr || err == q.endErr || exists i :: 0 <= i < |q.answers| && err in ErrorsOf(q.answers[i])
  }

  ghost predicate AnsweredIn(folders: seq<seq<Poll>>, err: int) {
    exists f, k :: 0 <= f < |folders| && 0 <= k < |folders[f]| && Answered(folders[f][k], err)
  }

  ghost predicate BogusCount(folders: seq<seq<Poll>>) {
    exists f, k :: 0 <= f < |folders| && 0 <= k < |folders[f]| && folders[f][k].count > COUNT_LIMIT
  }

  /** The server can run out of answers only if some folder is polled again, or not at all. */
  ghost predicate CanRunOut(u: Setup, folders: seq<seq<Poll>>) { u.p.retry || exists f :: 0 <= f < |folders| && folders[f] == [] }

  lemma FailureAnswered(c: Case)
    ensures c.Failure() != 0 ==> c.Failure() in ErrorsOf(c.a)
  {
  }

  lemma FetchCause(u: Setup, q: Poll, t: Totals)
    requires Coherent(q) && q.count > 0 && FetchStop(u, q, t).err != 0
    ensures var s := FetchStop(u, q, t);
      || (s.err == PS_PROTOCOL && q.count > COUNT_LIMIT)
      || Answered(q, s.err)
      || (s.err == PS_MAXFETCH && Starts(u, q) && s.done < q.count && 0 < u.maxfetch <= FetchAfter(u, q, t).fetches)
  {
    if Starts(u, q) {
      var cs, s := PassCases(u, q, t), FetchStop(u, q, t);
      StopsBecause(cs, WindowWidth(u.o, u.p), u.maxfetch, t.fetches, 0);
      AfterCounts(t, cs, s.done);
      if s.done < q.count && s.err == cs[s.done].a.sizesErr {
        assert s.err in ErrorsOf(q.answers[s.done]);
      } else if 0 < s.done && s.err == cs[s.done - 1].Failure() {
        FailureAnswered(cs[s.done - 1]);
        assert s.err in ErrorsOf(q.answers[s.done - 1]);
      }
    }
  }

  /** What the end of some polling says about its cause. */
  ghost predicate Caused(u: Setup, folders: seq<seq<Poll>>, e: Ended) {
    && (e.end.Broken? ==> e.end.err != 0)
    && (e.end.Broken? ==>
          || AnsweredIn(folders, e.end.err)
          || (e.end.err == PS_PROTOCOL && BogusCount(folders))
          || (e.end.err == PS_SOCKET && CanRunOut(u, folders)))
    && (e.end.LimitReached? ==> 0 < u.maxfetch <= e.totals.fetches)
    && (!e.end.Broken? && e.err != 0 ==> e.err == PS_MAXFETCH && (e.end.LimitReached? || AnsweredIn(folders, e.err)))
  }

  lemma PollCause(u: Setup, folders: seq<seq<Poll>>, f: nat, k: nat, t: Totals)
    requires CoherentFolders(folders) && f < |folders| && k < |folders[f]|
    ensures var q := folders[f][k]; Caused(u, folders, Ended(PollEnd(u, q, t), PollAfter(u, q, t), PollErr(u, q, t)))
  {
    var q := folders[f][k];
    if Fetches(u, q) && PollErr(u, q, t) != 0 {
      FetchCause(u, q, StartOver(t));
      assert Answered(q, PollErr(u, q, t)) ==> AnsweredIn(folders, PollErr(u, q, t));
    }
    assert Answered(q, q.rangeErr) && Answered(q, q.endErr);
  }

  lemma {:induction false} FolderCause(u: Setup, folders: seq<seq<Poll>>, f: nat, k: nat, t: Totals, err: int)
    requires CoherentFolders(folders) && f < |folders| && k <= |folders[f]| && (k > 0 ==> u.p.retry)
    ensures Caused(u, folders, FolderEnd(u, folders[f], k, t, err))
    decreases |folders[f]| - k
  {
    if k < |folders[f]| {
      var q := folders[f][k];
      PollCause(u, folders, f, k, t);
      if PollEnd(u, q, t).Repoll? {
        FolderCause(u, folders, f, k + 1, PollAfter(u, q, t), PollErr(u, q, t));
      }
    }
  }

  lemma {:induction false} FoldersCause(u: Setup, folders: seq<seq<Poll>>, f: nat, t: Totals, err: int)
    requires CoherentFolders(folders) && f <= |folders| && Caused(u, folders, Ended(NextFolder, t, err))
    ensures Caused(u, folders, FoldersEnd(u, folders, f, t, err))
    decreases |folders| - f
  {
    if f < |folders| {
      var e := FolderEnd(u, folders[f], 0, t, err);
      FolderCause(u, folders, f, 0, t, err);
      if e.end.NextFolder? {
        FoldersCause(u, folders, f + 1, e.totals, e.err);
      }
    }
  }

  /** Every way a session can end, for any answers: no error but one that was answered, or has one of five other causes. */
  lemma SessionCause(u: Setup, s: Script)
    requires CoherentScript(s) && s.setupErr == 0
    ensures var e := SessionEnd(u, s);
      || (e.err == PS_SUCCESS && e.fetched != 0 && s.logoutErr == 0 && !s.wrapupFails)
      || AnsweredIn(s.folders, e.err)
      || (e.err == s.logoutErr != 0)
      || (e.err == PS_PROTOCOL && BogusCount(s.folders))
      || (e.err == PS_SOCKET && CanRunOut(u, s.folders))
      || (e.err == PS_NOMAIL && e.fetched == 0 && s.logoutErr == 0 && !Polled(u, s).end.Broken?)
      || (e.err == PS_MAXFETCH && 0 < u.maxfetch <= e.fetched && s.logoutErr == 0)
      || (e.err == PS_SYNTAX && e.fetched != 0 && s.logoutErr == 0 && s.wrapupFails)
  {
    FoldersCause(u.(peekCapable := s.peekCapable), s.folders, 0, ZERO, 0);
  }

  /** A pass is broken off exactly by the first bad answer: about how many messages there are, a count that is not to be
      believed, about the sizes, an answer that ends fetching other than the limit, or about the end of the mailbox, which
      is asked about unless the folder was empty. */
  lemma PollBroken(u: Setup, q: Poll, t: Totals)
    requires Coherent(q)
    ensures var end, fetching := PollEnd(u, q, t), !u.checkOnly && q.count > 0;
      && (q.rangeErr != 0 ==> end == Broken(q.rangeErr))
      && (q.rangeErr == 0 && fetching && q.count > COUNT_LIMIT ==> end == Broken(PS_PROTOCOL))
      && (q.rangeErr == 0 && fetching && q.count <= COUNT_LIMIT && AsksAllSizes(u) && q.sizesErr != 0 ==> end == Broken(q.sizesErr))
      && (q.rangeErr == 0 && fetching && Starts(u, q) ==>
            var e := FetchStop(u, q, StartOver(t)).err;
            if e != PS_SUCCESS && e != PS_MAXFETCH then end == Broken(e)
            else if u.p.endMailboxPoll && q.endErr != 0 then end == Broken(q.endErr)
            else !end.Broken?)
      && (q.rangeErr == 0 && !fetching ==>
            if q.count != 0 && u.p.endMailboxPoll && q.endErr != 0 then end == Broken(q.endErr) else !end.Broken?)
  {
  }

  /** The first folder that is broken off ends the session with that error, whatever the logout would have answered. */
  lemma {:induction false} BrokenFolder(u: Setup, folders: seq<seq<Poll>>, from: nat, f: nat, t: Totals, err: int)
    requires CoherentFolders(folders) && from <= f < |folders| && FoldersEnd(u, folders[..f], from, t, err).end.NextFolder?
    ensures CoherentFolders(folders[..f])
    ensures var e := FoldersEnd(u, folders[..f], from, t, err);
            var g := FolderEnd(u, folders[f], 0, e.totals, e.err);
      if g.end.NextFolder? then FoldersEnd(u, folders, from, t, err) == FoldersEnd(u, folders, f + 1, g.totals, g.err)
      else FoldersEnd(u, folders, from, t, err) == g
    decreases f - from
  {
    if from < f {
      assert folders[..f][from] == folders[from];
      var e := FolderEnd(u, folders[from], 0, t, err);
      if e.end.NextFolder? { BrokenFolder(u, folders, from + 1, f, e.totals, e.err); }
    }
  }

  // ----- A session to which no answer puts an end -----

  /** No answer in this pass is a failure, whether or not all messages count as new. */
  ghost predicate Calm(o: Options, p: Protocol, q: Poll)
    requires Coherent(q)
  {
    && q.rangeErr == q.sizesErr == q.endErr == 0 && q.count <= COUNT_LIMIT
    && (q.count > 0 ==> forall force, i :: 0 <= i < q.count ==>
          CasesFor(o, p, q, force)[i].Failure() == 0 && q.answers[i].sizesErr == 0)
  }

  ghost predicate CalmFolders(o: Options, p: Protocol, folders: seq<seq<Poll>>)
    requires CoherentFolders(folders)
  {
    forall f, k :: 0 <= f < |folders| && 0 <= k < |folders[f]| ==> Calm(o, p, folders[f][k])
  }

  /** A calm pass stops at the limit, with messages left, or has done all of them. */
  lemma CalmPass(u: Setup, q: Poll, t: Totals)
    requires Coherent(q) && q.count > 0 && Calm(u.o, u.p, q)
    ensures var s := FetchStop(u, q, t);
      if s.done < q.count then s.err == PS_MAXFETCH && 0 < u.maxfetch <= FetchAfter(u, q, t).fetches else s == Stop(PS_SUCCESS, q.count)
  {
    var cs, s := PassCases(u, q, t), FetchStop(u, q, t);
    StopsBecause(cs, WindowWidth(u.o, u.p), u.maxfetch, t.fetches, 0);
    AfterCounts(t, cs, s.done);
    if 0 < s.done { assert cs[s.done - 1].Failure() == 0; }
    if s.done < q.count { assert cs[s.done].Failure() == 0; }
  }

  ghost predicate CalmEnd(u: Setup, folders: seq<seq<Poll>>, e: Ended) {
    && (e.end.Broken? ==> e.end.err == PS_SOCKET && CanRunOut(u, folders))
    && (!e.end.Broken? && e.err != 0 ==> e.err == PS_MAXFETCH && e.end.LimitReached?)
    && (e.end.LimitReached? ==> 0 < u.maxfetch <= e.totals.fetches)
  }

  lemma {:induction false} CalmFolder(u: Setup, folders: seq<seq<Poll>>, f: nat, k: nat, t: Totals, err: int)
    requires CoherentFolders(folders) && CalmFolders(u.o, u.p, folders)
    requires f < |folders| && k <= |folders[f]| && (k > 0 ==> u.p.retry)
    ensures CalmEnd(u, folders, FolderEnd(u, folders[f], k, t, err))
    decreases |folders[f]| - k
  {
    if k < |folders[f]| {
      var q := folders[f][k];
      assert Calm(u.o, u.p, q);
      if Fetches(u, q) {
        CalmPass(u, q, StartOver(t));
      }
      if PollEnd(u, q, t).Repoll? {
        CalmFolder(u, folders, f, k + 1, PollAfter(u, q, t), PollErr(u, q, t));
      }
    }
  }

  lemma {:induction false} CalmFrom(u: Setup, folders: seq<seq<Poll>>, f: nat, t: Totals, err: int)
    requires CoherentFolders(folders) && CalmFolders(u.o, u.p, folders) && f <= |folders| && err == 0
    ensures CalmEnd(u, folders, FoldersEnd(u, folders, f, t, err))
    decreases |folders| - f
  {
    if f < |folders| {
      var e := FolderEnd(u, folders[f], 0, t, err);
      CalmFolder(u, folders, f, 0, t, err);
      if e.end.NextFolder? {
        CalmFrom(u, folders, f + 1, e.totals, e.err);
      }
    }
  }

  /** How a session ends that logs in and gets no bad answer from any folder, as long as the server does not run out of
      answers: with the answer to the logout; or at the limit; or without mail if and only if it fetched nothing. */
  lemma CalmSession(u: Setup, s: Script)
    requires CoherentScript(s) && CalmFolders(u.o, u.p, s.folders) && s.setupErr == 0
    ensures var e, end := SessionEnd(u, s), Polled(u, s);
      if end.end.Broken? then e.err == PS_SOCKET && CanRunOut(u, s.folders)
      else if s.logoutErr != 0 then e.err == s.logoutErr
      else if end.err != PS_SUCCESS then e.err == PS_MAXFETCH && 0 < u.maxfetch <= e.fetched
      else if e.fetched == 0 then e.err == PS_NOMAIL
      else e.err == if s.wrapupFails then PS_SYNTAX else PS_SUCCESS
  {
    CalmFrom(u.(peekCapable := s.peekCapable), s.folders, 0, ZERO, 0);
  }

  /** The messages a poll lets through. */
  function LetThrough(o: Options, p: Protocol, q: Poll): nat
    requires Coherent(q)
  {
    if q.count <= 0 then 0 else CountFetched(CasesFor(o, p, q, false), q.count)
  }

  /** The messages that the first polls of the folders from `f` on let through. */
  function FirstPolls(o: Options, p: Protocol, folders: seq<seq<Poll>>, f: nat): nat
    requires CoherentFolders(folders) && f <= |folders|
    decreases |folders| - f
  {
    if f == |folders| then 0
    else (if folders[f] == [] then 0 else LetThrough(o, p, folders[f][0])) + FirstPolls(o, p, folders, f + 1)
  }

  lemma FirstPoll(u: Setup, q: Poll, t: Totals)
    requires Coherent(q) && Calm(u.o, u.p, q) && u.maxfetch == 0 && u.peekCapable && !u.checkOnly && !u.p.retry
    ensures PollEnd(u, q, t) == NextFolder && PollErr(u, q, t) == 0
    ensures PollAfter(u, q, t).fetches == t.fetches + LetThrough(u.o, u.p, q)
  {
    if q.count > 0 {
      CalmPass(u, q, StartOver(t));
      AfterCounts(StartOver(t), PassCases(u, q, StartOver(t)), q.count);
    }
  }

  lemma {:induction false} FirstPollsOnly(u: Setup, folders: seq<seq<Poll>>, f: nat, t: Totals)
    requires CoherentFolders(folders) && CalmFolders(u.o, u.p, folders) && f <= |folders| && !CanRunOut(u, folders)
    requires u.maxfetch == 0 && u.peekCapable && !u.checkOnly
    ensures var e := FoldersEnd(u, folders, f, t, 0);
      e.end == NextFolder && e.err == 0 && e.totals.fetches == t.fetches + FirstPolls(u.o, u.p, folders, f)
    decreases |folders| - f
  {
    if f < |folders| {
      assert folders[f] != [];
      FirstPoll(u, folders[f][0], t);
      FirstPollsOnly(u, folders, f + 1, PollAfter(u, folders[f][0], t));
    }
  }

  /** Without a limit and without repolls, a session with no bad answers fetches exactly what is to be fetched from every
      folder, and says that there was no mail if and only if that is nothing. */
  lemma FetchesEverything(u: Setup, s: Script)
    requires CoherentScript(s) && CalmFolders(u.o, u.p, s.folders) && !CanRunOut(u, s.folders)
    requires s.setupErr == s.logoutErr == 0 && s.peekCapable && !s.wrapupFails && u.maxfetch == 0 && !u.checkOnly
    ensures var n := FirstPolls(u.o, u.p, s.folders, 0);
      SessionEnd(u, s) == Outturn(if n == 0 then PS_NOMAIL else PS_SUCCESS, n)
  {
    FirstPollsOnly(u.(peekCapable := true), s.folders, 0, ZERO);
  }

  // ----- Polling a folder again -----

  /** The message adds to the error count. */
  predicate CountsError(c: Case) { (c.HeadersRead() && c.a.nameErrs > 0) || c.Unconfirmed() }

  /** A poll after which it is worth asking again: there is something in the folder, mail was forwarded or the session waits
      for mail, and no error was counted. */
  ghost predicate Worthwhile(u: Setup, q: Poll)
    requires Coherent(q)
  {
    if q.count <= 0 then q.count != 0 && u.idle
    else
      var cs := CasesFor(u.o, u.p, q, false);
      && (u.idle || exists i :: 0 <= i < q.count && cs[i].Forwarded())
      && forall i :: 0 <= i < q.count ==> !CountsError(cs[i])
  }

  lemma {:induction false} AfterTrouble(base: Totals, cs: seq<Case>, k: nat)
    requires k <= |cs|
    ensures var t := After(base, cs, k);
      && t.dispatches >= base.dispatches && (t.dispatches > base.dispatches <==> exists i :: 0 <= i < k && cs[i].Forwarded())
      && t.errcount >= base.errcount && (t.errcount == base.errcount <==> forall i :: 0 <= i < k ==> !CountsError(cs[i]))
  {
    if k > 0 {
      AfterTrouble(base, cs, k - 1);
      var c := cs[k - 1];
      assert CountsError(c) <==> (if c.HeadersRead() then c.a.nameErrs else 0) + One(c.Unconfirmed()) > 0;
    }
  }

  lemma CalmPoll(u: Setup, q: Poll, t: Totals)
    requires Coherent(q) && Calm(u.o, u.p, q) && u.maxfetch == 0 && u.peekCapable && !u.checkOnly && u.p.retry && t.errcount == 0
    ensures var after := PollAfter(u, q, t);
      && PollEnd(u, q, t) == (if Worthwhile(u, q) then Repoll else NextFolder) && PollErr(u, q, t) == 0
      && after.fetches == t.fetches + LetThrough(u.o, u.p, q) && (Worthwhile(u, q) ==> after.errcount == 0)
  {
    var t0 := StartOver(t);
    if q.count > 0 {
      CalmPass(u, q, t0);
      AfterCounts(t0, PassCases(u, q, t0), q.count);
      AfterTrouble(t0, PassCases(u, q, t0), q.count);
    }
  }

  /** What polls `k` to `n` let through. */
  function PollsLetThrough(o: Options, p: Protocol, polls: seq<Poll>, k: nat, n: nat): nat
    requires CoherentFolder(polls) && k <= n < |polls|
    decreases n - k
  {
    LetThrough(o, p, polls[k]) + if k == n then 0 else PollsLetThrough(o, p, polls, k + 1, n)
  }

  /** A folder is polled up to and including the first poll after which it is not worth asking again. */
  lemma {:induction false} Repolls(u: Setup, polls: seq<Poll>, k: nat, n: nat, t: Totals, err: int)
    requires CoherentFolder(polls) && k <= n < |polls| && forall i :: k <= i <= n ==> Calm(u.o, u.p, polls[i])
    requires u.maxfetch == 0 && u.peekCapable && !u.checkOnly && u.p.retry && t.errcount == 0
    requires !Worthwhile(u, polls[n]) && forall i :: k <= i < n ==> Worthwhile(u, polls[i])
    ensures var e := FolderEnd(u, polls, k, t, err);
      e.end == NextFolder && e.err == 0 && e.totals.fetches == t.fetches + PollsLetThrough(u.o, u.p, polls, k, n)
    decreases n - k
  {
    CalmPoll(u, polls[k], t);
    if k < n {
      Repolls(u, polls, k + 1, n, PollAfter(u, polls[k], t), 0);
    }
  }

  // ----- The limit -----

  /** The limit leaves room for more. */
  predicate RoomFor(u: Setup, t: Totals) { u.maxfetch > 0 ==> t.fetches < u.maxfetch }

  lemma PollWithin(u: Setup, q: Poll, t: Totals)
    requires Coherent(q) && !u.checkOnly && RoomFor(u, t)
    ensures u.maxfetch > 0 ==> PollAfter(u, q, t).fetches <= u.maxfetch
    ensures PollEnd(u, q, t).Repoll? || PollEnd(u, q, t).NextFolder? ==> RoomFor(u, PollAfter(u, q, t))
  {
    if Fetches(u, q) && Starts(u, q) {
      var t0 := StartOver(t);
      StopWithin(PassCases(u, q, t0), WindowWidth(u.o, u.p), u.maxfetch, t.fetches);
      AfterCounts(t0, PassCases(u, q, t0), FetchStop(u, q, t0).done);
    }
  }

  lemma {:induction false} FolderWithin(u: Setup, polls: seq<Poll>, k: nat, t: Totals, err: int)
    requires CoherentFolder(polls) && k <= |polls| && !u.checkOnly && RoomFor(u, t)
    ensures var e := FolderEnd(u, polls, k, t, err);
      (u.maxfetch > 0 ==> e.totals.fetches <= u.maxfetch) && (e.end.NextFolder? ==> RoomFor(u, e.totals))
    decreases |polls| - k
  {
    if k < |polls| {
      PollWithin(u, polls[k], t);
      if PollEnd(u, polls[k], t).Repoll? {
        FolderWithin(u, polls, k + 1, PollAfter(u, polls[k], t), PollErr(u, polls[k], t));
      }
    }
  }

  lemma {:induction false} FoldersWithin(u: Setup, folders: seq<seq<Poll>>, f: nat, t: Totals, err: int)
    requires CoherentFolders(folders) && f <= |folders| && !u.checkOnly && RoomFor(u, t)
    ensures u.maxfetch > 0 ==> FoldersEnd(u, folders, f, t, err).totals.fetches <= u.maxfetch
    decreases |folders| - f
  {
    if f < |folders| {
      FolderWithin(u, folders[f], 0, t, err);
      var e := FolderEnd(u, folders[f], 0, t, err);
      if e.end.NextFolder? {
        FoldersWithin(u, folders, f + 1, e.totals, e.err);
      }
    }
  }

  /** No session fetches more than its limit. */
  lemma SessionWithin(u: Setup, s: Script)
    requires CoherentScript(s) && !u.checkOnly
    ensures u.maxfetch > 0 ==> SessionEnd(u, s).fetched <= u.maxfetch
  {
    FoldersWithin(u.(peekCapable := s.peekCapable), s.folders, 0, ZERO, 0);
  }

  function Sum(xs: seq<int>): int { if xs == [] then 0 else xs[0] + Sum(xs[1..]) }

  predicate AllPositive(xs: seq<nat>) { forall i :: 0 <= i < |xs| ==> xs[i] > 0 }

  /** No session fetched more than it was told to, where 0 means no limit. */
  predicate WithinLimits(fetched: seq<int>, limits: seq<nat>) {
    |fetched| <= |limits| && forall i :: 0 <= i < |fetched| && limits[i] > 0 ==> fetched[i] <= limits[i]
  }

  /** The account of some sessions that may fetch `limit` messages together, where 0 means no limit. */
  ghost predicate InBudget(r: Sessions, limit: nat, checkOnly: bool) {
    && |r.fetched| <= |r.limits| && (!checkOnly ==> WithinLimits(r.fetched, r.limits))
    && (limit > 0 ==> AllPositive(r.limits) && |r.limits| <= Sum(r.limits) <= limit)
    && (limit > 0 && !checkOnly ==> Sum(r.fetched) <= Sum(r.limits))
  }

  /** The account of the sessions that follow when `total` messages have been allowed: they keep to what is left of the limit,
      an explicit "no limit" allows one session, and the last session may stop early only when the whole limit is used up. */
  ghost predicate Within(r: Sessions, fetchlimit: int, total: nat, checkOnly: bool)
    requires fetchlimit > 0 ==> total < fetchlimit
  {
    && InBudget(r, if fetchlimit > 0 then fetchlimit - total else 0, checkOnly)
    && (fetchlimit < 0 ==> |r.limits| == 1)
    && (r.err == PS_MAXFETCH && fetchlimit >= 0 ==> fetchlimit > 0 && Sum(r.limits) == fetchlimit - total)
  }

  lemma OneInBudget(err: int, x: nat, fetched: seq<int>, limit: nat, checkOnly: bool)
    requires limit > 0 ==> 0 < x <= limit
    requires |fetched| <= 1 && (!checkOnly && x > 0 && fetched != [] ==> fetched[0] <= x)
    ensures InBudget(Sessions(err, [x], fetched), limit, checkOnly) && Sum([x]) == x
  {
    assert [x][1..] == [] && (fetched != [] ==> fetched[1..] == []);
  }

  lemma LastWithin(err: int, x: nat, fetched: seq<int>, fetchlimit: int, total: nat, checkOnly: bool)
    requires fetchlimit > 0 ==> total < fetchlimit && 0 < x <= fetchlimit - total
    requires |fetched| <= 1 && (!checkOnly && x > 0 && fetched != [] ==> fetched[0] <= x)
    requires err == PS_MAXFETCH ==> fetchlimit < 0 || (fetchlimit > 0 && total + x >= fetchlimit)
    ensures Within(Sessions(err, [x], fetched), fetchlimit, total, checkOnly)
  {
    OneInBudget(err, x, fetched, if fetchlimit > 0 then fetchlimit - total else 0, checkOnly);
  }

  lemma NextWithin(x: nat, n: int, rest: Sessions, fetchlimit: int, total: nat, checkOnly: bool)
    requires fetchlimit >= 0 && (fetchlimit > 0 ==> x > 0 && total + x < fetchlimit) && Within(rest, fetchlimit, total + x, checkOnly)
    requires !checkOnly && x > 0 ==> n <= x
    ensures Within(Sessions(rest.err, [x] + rest.limits, [n] + rest.fetched), fetchlimit, total, checkOnly)
  {
    assert ([x] + rest.limits)[1..] == rest.limits && ([n] + rest.fetched)[1..] == rest.fetched;
  }

  /** Several sessions keep to the limit between them, if each keeps to its own. */
  lemma {:induction false} RunWithin(run: Prospect, n: nat, fetchlimit: int, k: nat, total: nat, lockouts: nat, expunge: nat,
                                     checkOnly: bool)
    requires k <= n && (fetchlimit > 0 ==> total < fetchlimit)
    requires !checkOnly ==> forall i: nat, x: nat :: x > 0 ==> run(i, x).fetched <= x
    ensures Within(RunSessions(run, n, fetchlimit, k, total, lockouts, expunge), fetchlimit, total, checkOnly)
    decreases n - k
  {
    var x := NextLimit(ValueOut(fetchlimit), expunge, total);
    if k == n {
      LastWithin(PS_SOCKET, x, [], fetchlimit, total, checkOnly);
    } else {
      var e := run(k, x);
      if (fetchlimit != 0 && total + x >= ValueOut(fetchlimit)) || !TryAgain(e.err, lockouts) {
        LastWithin(e.err, x, [e.fetched], fetchlimit, total, checkOnly);
      } else {
        var lockouts' := NextLockouts(e.err, lockouts);
        RunWithin(run, n, fetchlimit, k + 1, total + x, lockouts', x, checkOnly);
        NextWithin(x, e.fetched, RunSessions(run, n, fetchlimit, k + 1, total + x, lockouts', x), fetchlimit, total, checkOnly);
      }
    }
  }

  /** The limit over a whole poll. */
  lemma PollWithinLimit(u: Setup, fetchlimit: int, expungeOpt: int, scripts: seq<Script>)
    requires CoherentScripts(scripts)
    ensures var r := PollRun(u, fetchlimit, expungeOpt, scripts);
      && InBudget(r, ValueOut(fetchlimit), u.checkOnly)
      && (fetchlimit < 0 || OneSession(u.o, u.p, expungeOpt) ==> |r.limits| <= 1)
      && (r.err == PS_MAXFETCH && fetchlimit >= 0 && !OneSession(u.o, u.p, expungeOpt) ==>
            fetchlimit > 0 && Sum(r.limits) == fetchlimit)
  {
    var limit := ValueOut(fetchlimit);
    var run := ProspectOf(u, scripts);
    if !u.checkOnly {
      forall i: nat, x: nat | x > 0 ensures run(i, x).fetched <= x {
        if i < |scripts| { SessionWithin(u.(maxfetch := x), scripts[i]); }
      }
    }
    RunWithin(run, |scripts|, fetchlimit, 0, 0, 0, ValueOut(expungeOpt), u.checkOnly);
    OneInBudget(PS_SOCKET, limit, [], limit, u.checkOnly);
    if scripts != [] {
      var v := u.(maxfetch := limit);
      if !u.checkOnly { SessionWithin(v, scripts[0]); }
      OneInBudget(SessionEnd(v, scripts[0]).err, limit, [SessionEnd(v, scripts[0]).fetched], limit, u.checkOnly);
    }
  }

  // ----- Locked mailboxes -----

  /** Sessions `k` to `k + m - 1` find the mailbox locked, whatever their limit. */
  ghost predicate Locked(run: Prospect, k: nat, m: nat) {
    forall i: nat, x: nat :: k <= i < k + m ==> run(i, x) == Outturn(PS_LOCKBUSY, 0)
  }

  lemma Shares(m: nat, x: nat)
    requires m > 0
    ensures m * x == x + (m - 1) * x && m * x >= x
  {
    assert 0 <= (m - 1) * x;
  }

  lemma LockedOnce(run: Prospect, n: nat, fetchlimit: int, k: nat, total: nat, lockouts: nat, x: nat)
    requires k < n && run(k, x) == Outturn(PS_LOCKBUSY, 0) && (fetchlimit == 0 || (x > 0 && total + x < fetchlimit))
    ensures RunSessions(run, n, fetchlimit, k, total, lockouts, x) ==
      if lockouts < MAX_LOCKOUTS then
        var rest := RunSessions(run, n, fetchlimit, k + 1, total + x, lockouts + 1, x);
        Sessions(rest.err, [x] + rest.limits, [0] + rest.fetched)
      else Sessions(PS_LOCKBUSY, [x], [0])
  {
  }

  /** Up to `MAX_LOCKOUTS` sessions in a row that find the mailbox locked are each followed by another. Each of them uses up
      its share of the limit. */
  lemma {:induction false} LockedRetries(run: Prospect, n: nat, fetchlimit: int, k: nat, total: nat, lockouts: nat, x: nat,
                                         m: nat, used: nat)
    requires Locked(run, k, m) && k + m <= n && lockouts + m <= MAX_LOCKOUTS && used == total + m * x
    requires fetchlimit == 0 || (x > 0 && used < fetchlimit)
    ensures var r := RunSessions(run, n, fetchlimit, k, total, lockouts, x);
            var rest := RunSessions(run, n, fetchlimit, k + m, used, lockouts + m, x);
      r.err == rest.err && |r.fetched| == m + |rest.fetched| && |r.limits| == m + |rest.limits|
    decreases m
  {
    if m > 0 {
      Shares(m, x);
      LockedOnce(run, n, fetchlimit, k, total, lockouts, x);
      LockedRetries(run, n, fetchlimit, k + 1, total + x, lockouts + 1, x, m - 1, used);
    }
  }

  /** One more such session ends the poll. */
  lemma LockedOut(run: Prospect, n: nat, fetchlimit: int, k: nat, total: nat, x: nat, used: nat)
    requires Locked(run, k, MAX_LOCKOUTS + 1) && k + MAX_LOCKOUTS < n && used == total + MAX_LOCKOUTS * x
    requires fetchlimit == 0 || (x > 0 && used + x < fetchlimit)
    ensures var r := RunSessions(run, n, fetchlimit, k, total, 0, x);
      r.err == PS_LOCKBUSY && |r.fetched| == |r.limits| == MAX_LOCKOUTS + 1
  {
    LockedRetries(run, n, fetchlimit, k, total, 0, x, MAX_LOCKOUTS, used);
    LockedOnce(run, n, fetchlimit, k + MAX_LOCKOUTS, used, MAX_LOCKOUTS, x);
  }

  /** Sessions that find the mailbox locked when they log in are such. */
  lemma LockedScripts(u: Setup, scripts: seq<Script>, k: nat, m: nat)
    requires CoherentScripts(scripts) && k + m <= |scripts| && forall i :: k <= i < k + m ==> scripts[i].setupErr == PS_LOCKBUSY
    ensures Locked(ProspectOf(u, scripts), k, m)
  {
  }

  /** Options that the protocol cannot serve are refused before any session. */
  lemma Refused(u: Setup, fetchlimit: int, expungeOpt: int, scripts: seq<Script>)
    requires CoherentScripts(scripts)
    ensures PollRun(u, fetchlimit, expungeOpt, scripts).limits == [] <==>
      || (u.o.flush && !u.p.isOld) || (u.o.fetchall && !u.p.isOld)
      || (u.o.limit != 0 && !u.p.getsizes && !u.p.getpartialsizes)
  {
  }
}
