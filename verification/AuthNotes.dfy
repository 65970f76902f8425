/** The notices about failing logins that a background poller mails to its user: when one goes out, when
    the failure is over, and that the user is not flooded. */
module AuthNotes {

  /** How one attempt to log in ended, and whether a notice could be mailed at that time. */
  datatype Login = Success(mailOk: bool) | AuthFail(mailOk: bool) | OtherError

  datatype Notice = Silent | FailureNote | RestoredNote

  /** Where the streak of attempts that contains attempt `i` began: just after the last success before it. */
  function StreakStart(h: seq<Login>, i: nat): (s: nat)
    requires i <= |h|
    ensures s <= i && (s > 0 ==> h[s - 1].Success?)
    ensures forall j :: s <= j < i ==> !h[j].Success?
  {
    if i == 0 || h[i - 1].Success? then i else StreakStart(h, i - 1)
  }

  /** Authorization failures among attempts `from` to `to - 1`. */
  function Failures(h: seq<Login>, from: nat, to: nat): nat
    requires from <= to <= |h|
  {
    if from == to then 0 else Failures(h, from, to - 1) + if h[to - 1].AuthFail? then 1 else 0
  }

  /** Failures in a row that are tolerated: three, or ten once a login has ever succeeded. */
  function Threshold(h: seq<Login>, i: nat): nat
    requires i <= |h|
  {
    if exists j :: 0 <= j < i && h[j].Success? then 10 else 3
  }

  /** The streak of failures is long enough for a notice. */
  predicate Due(h: seq<Login>, i: nat)
    requires i < |h|
  {
    h[i].AuthFail? && Failures(h, StreakStart(h, i), i + 1) >= Threshold(h, i)
  }

  /** A failure notice goes out at attempt `i`: it is due, it can be mailed, and none went out since the last
      success. */
  predicate FailureNoteAt(h: seq<Login>, i: nat)
    requires i < |h|
  {
    Due(h, i) && h[i].mailOk && !NotedIn(h, StreakStart(h, i), i)
  }

  predicate NotedIn(h: seq<Login>, from: nat, to: nat)
    requires from <= to <= |h|
  {
    exists j :: from <= j < to && Due(h, j) && h[j].mailOk
  }

  /** The end of a failure that the user was told about is reported to him. */
  predicate RestoredNoteAt(h: seq<Login>, i: nat)
    requires i < |h|
  {
    h[i].Success? && h[i].mailOk && NotedIn(h, StreakStart(h, i), i)
  }

  /** The login state of one account. */
  class Account {
    var weHaveAuthed: bool
    var weHaveSentAuthnote: bool
    var authFailCount: nat

    constructor ()
      ensures !weHaveAuthed && !weHaveSentAuthnote && authFailCount == 0
    {
      weHaveAuthed, weHaveSentAuthnote, authFailCount := false, false, 0;
    }

    /** The state after the attempts `h[..i]` of a background poller. */
    ghost predicate After(h: seq<Login>, i: nat)
      requires i <= |h|
      reads this
    {
      && (weHaveAuthed <==> exists j :: 0 <= j < i && h[j].Success?)
      && (weHaveSentAuthnote <==> NotedIn(h, StreakStart(h, i), i))
      && (!weHaveSentAuthnote ==> authFailCount == Failures(h, StreakStart(h, i), i))
    }

    /** Records one attempt and says what is mailed. */
    method Attempt(background: bool, login: Login, ghost h: seq<Login>, ghost i: nat) returns (n: Notice)
      requires i < |h| && h[i] == login && (background ==> After(h, i))
      modifies this
      ensures background ==> After(h, i + 1)
      ensures background ==> (n.FailureNote? <==> FailureNoteAt(h, i)) && (n.RestoredNote? <==> RestoredNoteAt(h, i))
      ensures !background && !old(weHaveSentAuthnote) ==> n == Silent && !weHaveSentAuthnote
    {
      n := Silent;
      match login
      case OtherError =>
      case AuthFail(mailOk) =>
        if background && !weHaveSentAuthnote {
          var due;
          if weHaveAuthed {
            authFailCount := authFailCount + 1;
            due := authFailCount >= 10;
          } else {
            authFailCount := authFailCount + 1;
            due := authFailCount >= 3;
          }
          if due && mailOk {
            weHaveSentAuthnote := true;
            n := FailureNote;
          }
        }
      case Success(mailOk) =>
        weHaveAuthed := true;
        if weHaveSentAuthnote {
          weHaveSentAuthnote := false;
          if mailOk {
            n := RestoredNote;
          }
        }
        authFailCount := 0;
    }
  }

  /** All attempts of a poller, from a fresh account. */
  method Watch(background: bool, h: seq<Login>) returns (notices: seq<Notice>)
    ensures |notices| == |h|
    ensures background ==> forall i :: 0 <= i < |h| ==>
      (notices[i].FailureNote? <==> FailureNoteAt(h, i)) && (notices[i].RestoredNote? <==> RestoredNoteAt(h, i))
    ensures !background ==> forall i :: 0 <= i < |h| ==> notices[i] == Silent
  {
    var account := new Account();
    notices := [];
    for i := 0 to |h|
      invariant |notices| == i
      invariant if background then account.After(h, i) else !account.weHaveSentAuthnote
      invariant background ==> forall k :: 0 <= k < i ==>
        (notices[k].FailureNote? <==> FailureNoteAt(h, k)) && (notices[k].RestoredNote? <==> RestoredNoteAt(h, k))
      invariant !background ==> forall k :: 0 <= k < i ==> notices[k] == Silent
    {
      var n := account.Attempt(background, h[i], h, i);
      notices := notices + [n];
    }
  }

  /** Attempts without a success between them share their streak. */
  lemma {:induction false} SameStreak(h: seq<Login>, i: nat, j: nat)
    requires i <= j <= |h| && forall k :: i <= k < j ==> !h[k].Success?
    ensures StreakStart(h, i) == StreakStart(h, j)
  {
    if i < j {
      SameStreak(h, i, j - 1);
    }
  }

  /** Two failure notices have a successful login between them. */
  lemma NotesSeparated(h: seq<Login>, i: nat, j: nat)
    requires i < j < |h| && FailureNoteAt(h, i) && FailureNoteAt(h, j)
    ensures exists k :: i < k < j && h[k].Success?
  {
    if forall k :: i < k < j ==> !h[k].Success? {
      SameStreak(h, i, j);
    }
  }

  /** A failure notice stands for at least three failures since the last success, ten after a first success. */
  lemma NoteNeedsFailures(h: seq<Login>, i: nat)
    requires i < |h| && FailureNoteAt(h, i)
    ensures Failures(h, StreakStart(h, i), i + 1) >= 3
    ensures (exists j :: 0 <= j < i && h[j].Success?) ==> Failures(h, StreakStart(h, i), i + 1) >= 10
  {
  }

  /** A notice does go out with the third failure, the tenth once a login has ever succeeded, if mail works then and no
      earlier one went out since the last success; and from then on with the first attempt at which mail works. */
  lemma NoteGoesOut(h: seq<Login>, i: nat)
    requires i < |h| && h[i].AuthFail? && h[i].mailOk
    requires forall j :: StreakStart(h, i) <= j < i ==> !FailureNoteAt(h, j)
    ensures var known, failures := exists j :: 0 <= j < i && h[j].Success?, Failures(h, StreakStart(h, i), i + 1);
      FailureNoteAt(h, i) <==> failures >= if known then 10 else 3
  {
    if j :| StreakStart(h, i) <= j < i && Due(h, j) && h[j].mailOk {
      var k := FirstNote(h, j, i);
    }
  }

  /** The first due and mailable attempt of a streak is where its notice goes out. */
  lemma {:induction false} FirstNote(h: seq<Login>, j: nat, i: nat) returns (k: nat)
    requires j < i <= |h| && StreakStart(h, i) <= j && Due(h, j) && h[j].mailOk
    ensures StreakStart(h, i) <= k <= j && FailureNoteAt(h, k)
    decreases j
  {
    SameStreak(h, j, i);
    if NotedIn(h, StreakStart(h, j), j) {
      var j' :| StreakStart(h, j) <= j' < j && Due(h, j') && h[j'].mailOk;
      k := FirstNote(h, j', i);
    } else {
      k := j;
    }
  }

  /** Service is reported restored only to a user who was told of the failure, with no success in between. */
  lemma RestoredFollowsNote(h: seq<Login>, i: nat)
    requires i < |h| && RestoredNoteAt(h, i)
    ensures exists k :: 0 <= k < i && FailureNoteAt(h, k) && forall l :: k <= l < i ==> !h[l].Success?
  {
    var j :| StreakStart(h, i) <= j < i && Due(h, j) && h[j].mailOk;
    var k := FirstNote(h, j, i);
  }
}
