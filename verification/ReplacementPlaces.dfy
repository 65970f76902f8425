/** Which occurrences the replacement engine replaces, and exactly when those are the ones it is asked for: the
    leftmost non-overlapping ones strictly after the first `preexist` and strictly before the last `postexist`. */
module ReplacementPlaces {
  import opened Common
  import opened StringReplace

  /** The places of the occurrences that the scan replaces. */
  function Picks(j: Job, limit: Option<nat>, i: nat): seq<nat>
    requires j.Ok() && i <= |j.s|
    decreases |j.s| - i
  {
    match First(j.hits, i)
    case None => []
    case Some(p) =>
      if limit == Some(0) then []
      else if j.Wanted(p) then [p] + Picks(j, OneLess(limit), p + j.len)
      else Picks(j, limit, p + j.len)
  }

  /** The leftmost marks that lie at least `len` apart, at most `limit` of them. */
  function Leftmost(w: seq<bool>, n: nat, len: nat, limit: Option<nat>, i: nat): seq<nat>
    requires Marks(w, n, len) && i <= n
    decreases n - i
  {
    match First(w, i)
    case None => []
    case Some(p) => if limit == Some(0) then [] else [p] + Leftmost(w, n, len, OneLess(limit), p + len)
  }

  /** Places from `i` on that lie `len` apart. */
  ghost predicate Apart(picks: seq<nat>, i: nat, len: nat, n: nat) {
    i <= n && (picks != [] ==> i <= picks[0] && Apart(picks[1..], picks[0] + len, len, n))
  }

  /** The text from `i` on with what stands at the places replaced. */
  ghost function Splice(s: string, len: nat, with: string, picks: seq<nat>, i: nat): string
    requires Apart(picks, i, len, |s|)
    decreases |picks|
  {
    if picks == [] then s[i..]
    else
      assert Apart(picks[1..], picks[0] + len, len, |s|);
      s[i..picks[0]] + with + Splice(s, len, with, picks[1..], picks[0] + len)
  }

  lemma {:induction false} LeftmostApart(w: seq<bool>, n: nat, len: nat, limit: Option<nat>, i: nat)
    requires Marks(w, n, len) && i <= n
    ensures Apart(Leftmost(w, n, len, limit, i), i, len, n)
    decreases n - i
  {
    var f := First(w, i);
    if f.Some? && limit != Some(0) {
      LeftmostApart(w, n, len, OneLess(limit), f.value + len);
    }
  }

  /** There are no more of them than the limit, and if there are fewer every mark is one of them or overlapped by one. */
  lemma {:induction false} LeftmostMost(w: seq<bool>, n: nat, len: nat, limit: Option<nat>, i: nat)
    requires Marks(w, n, len) && i <= n
    ensures var picks := Leftmost(w, n, len, limit, i);
      && (limit.Some? ==> |picks| <= limit.value)
      && (limit.None? || |picks| < limit.value ==>
            forall p :: i <= p < |w| && w[p] ==> Covered(picks, len, p))
    decreases n - i
  {
    var f := First(w, i);
    if f.Some? && limit != Some(0) {
      var rest := Leftmost(w, n, len, OneLess(limit), f.value + len);
      LeftmostMost(w, n, len, OneLess(limit), f.value + len);
      forall p | i <= p < |w| && w[p] && (limit.None? || 1 + |rest| < limit.value) ensures Covered([f.value] + rest, len, p) {
        FindsFirst(w, i, p);
        if p < f.value + len {
          assert f.value in [f.value] + rest;
        } else {
          var q :| q in rest && q <= p < q + len;
          assert q in [f.value] + rest;
        }
      }
    } else if f.None? {
      forall p | i <= p < |w| && w[p] ensures false {
        FindsFirst(w, i, p);
      }
    }
  }

  /** One of the places overlaps `p`. */
  ghost predicate Covered(picks: seq<nat>, len: nat, p: nat) { exists q :: q in picks && q <= p < q + len }

  /** The scan from `i` on, with the text before it back to `from`, is the text with its places replaced. */
  ghost predicate Spliced(j: Job, limit: Option<nat>, i: nat, from: nat)
    requires j.Ok() && from <= i <= |j.s|
  {
    var ps := Picks(j, limit, i);
    Apart(ps, from, j.len, |j.s|) && j.s[from..i] + Scan(j, limit, i) == Splice(j.s, j.len, j.with, ps, from)
  }

  lemma {:induction false} ScanSplice(j: Job, limit: Option<nat>, i: nat, from: nat)
    requires j.Ok() && from <= i <= |j.s|
    ensures Spliced(j, limit, i, from)
    decreases |j.s| - i
  {
    var f := First(j.hits, i);
    if f.None? || limit == Some(0) {
      SplicedRest(j, limit, i, from);
    } else {
      var p := f.value;
      if j.Wanted(p) {
        ScanSplice(j, OneLess(limit), p + j.len, p + j.len);
        SplicedWanted(j, limit, p, from);
      } else {
        ScanSplice(j, limit, p + j.len, from);
        SplicedOther(j, limit, p, from);
      }
      SplicedTo(j, limit, i, from, p);
    }
  }

  lemma SplicedRest(j: Job, limit: Option<nat>, i: nat, from: nat)
    requires j.Ok() && from <= i <= |j.s| && (First(j.hits, i).None? || limit == Some(0))
    ensures Spliced(j, limit, i, from)
  {
    ScanRest(j, limit, i);
    SliceJoin(j.s, from, i);
  }

  /** From an occurrence that is replaced. */
  lemma SplicedWanted(j: Job, limit: Option<nat>, p: nat, from: nat)
    requires j.Ok() && from <= p < |j.s| && j.Wanted(p) && limit != Some(0)
    requires Spliced(j, OneLess(limit), p + j.len, p + j.len)
    ensures Spliced(j, limit, p, from)
  {
    var after := p + j.len;
    var ps, rest := Picks(j, OneLess(limit), after), Scan(j, OneLess(limit), after);
    var whole := Scan(j, limit, p);
    assert Picks(j, limit, p) == [p] + ps;
    assert rest == Splice(j.s, j.len, j.with, ps, after) by { assert j.s[after..after] + rest == rest; }
    SpliceFirst(j.s, j.len, j.with, p, ps, from);
    assert j.s[from..p] + whole == j.s[from..p] + j.with + rest by { Join(j.s[from..p], j.with, rest); }
  }

  /** From an occurrence that is stepped over. */
  lemma SplicedOther(j: Job, limit: Option<nat>, p: nat, from: nat)
    requires j.Ok() && from <= p < |j.s| && j.hits[p] && !j.Wanted(p)
    requires Spliced(j, limit, p + j.len, from)
    ensures Spliced(j, limit, p, from)
  {
    var after := p + j.len;
    var whole, rest := Scan(j, limit, p), Scan(j, limit, after);
    assert whole == j.s[p..after] + rest by { ScanPass(j, limit, p); }
    Glue(j.s, from, p, after, j.s[from..p] + whole, whole, rest);
    assert limit == Some(0) ==> Picks(j, limit, after) == [];
    assert Picks(j, limit, p) == Picks(j, limit, after);
  }

  /** From the text before an occurrence. */
  lemma SplicedTo(j: Job, limit: Option<nat>, i: nat, from: nat, p: nat)
    requires j.Ok() && from <= i <= p < |j.s| && First(j.hits, i) == Some(p)
    requires Spliced(j, limit, p, from)
    ensures Spliced(j, limit, i, from)
  {
    var whole, rest := Scan(j, limit, i), Scan(j, limit, p);
    assert whole == j.s[i..p] + rest by { ScanSkip(j, limit, i); }
    Glue(j.s, from, i, p, j.s[from..i] + whole, whole, rest);
    assert Picks(j, limit, i) == Picks(j, limit, p);
  }

  lemma SpliceFirst(s: string, len: nat, with: string, p: nat, ps: seq<nat>, from: nat)
    requires from <= p && p + len <= |s| && Apart(ps, p + len, len, |s|)
    ensures Apart([p] + ps, from, len, |s|)
    ensures Splice(s, len, with, [p] + ps, from) == s[from..p] + with + Splice(s, len, with, ps, p + len)
  {
    assert ([p] + ps)[1..] == ps;
  }

  lemma ScanRest(j: Job, limit: Option<nat>, i: nat)
    requires j.Ok() && i <= |j.s| && (First(j.hits, i).None? || limit == Some(0))
    ensures Scan(j, limit, i) == j.s[i..]
  {
    if limit != Some(0) {
      ScanSkip(j, limit, i);
      assert j.s[i..|j.s|] + j.s[|j.s|..] == j.s[i..];
    }
  }

  /** The marks of the occurrences that qualify. */
  function WantedMarks(j: Job): (w: seq<bool>)
    requires j.Ok()
    ensures Marks(w, |j.s|, j.len)
    ensures forall i :: 0 <= i <= |j.s| ==> (w[i] <==> j.Wanted(i))
  {
    seq(|j.s| + 1, i requires 0 <= i => j.Wanted(i))
  }

  /** Where the scan stands when it has stepped over the occurrences up to the place `pre`. */
  function Resume(j: Job, i: nat): (r: nat)
    requires j.Ok() && i <= |j.s|
    ensures i <= r <= |j.s|
    decreases |j.s| - i
  {
    match First(j.hits, i)
    case None => i
    case Some(p) => if j.pre.Some? && p <= j.pre.value then Resume(j, p + j.len) else i
  }

  /** Nothing is replaced on the way there. */
  lemma {:induction false} PicksResume(j: Job, limit: Option<nat>, i: nat)
    requires j.Ok() && i <= |j.s|
    ensures var r := Resume(j, i);
      && Picks(j, limit, i) == Picks(j, limit, r)
      && (First(j.hits, r).Some? && j.pre.Some? ==> j.pre.value < First(j.hits, r).value)
    decreases |j.s| - i
  {
    var f := First(j.hits, i);
    if f.Some? && j.pre.Some? && f.value <= j.pre.value {
      PicksResume(j, limit, f.value + j.len);
      NoPicks(j, limit, f.value + j.len);
    }
  }

  lemma NoPicks(j: Job, limit: Option<nat>, i: nat)
    requires j.Ok() && i <= |j.s|
    ensures limit == Some(0) ==> Picks(j, limit, i) == []
  {
  }

  /** From there on it takes the leftmost qualifying occurrences. */
  lemma {:induction false} PicksLeftmost(j: Job, limit: Option<nat>, i: nat)
    requires j.Ok() && i <= |j.s|
    requires First(j.hits, i).Some? && j.pre.Some? ==> j.pre.value < First(j.hits, i).value
    ensures Picks(j, limit, i) == Leftmost(WantedMarks(j), |j.s|, j.len, limit, i)
    decreases |j.s| - i
  {
    var w, f := WantedMarks(j), First(j.hits, i);
    FirstWanted(j, i);
    if f.Some? {
      if j.Wanted(f.value) {
        PicksLeftmost(j, OneLess(limit), f.value + j.len);
      } else {
        PicksBehind(j, limit, f.value + j.len);
      }
    }
  }

  /** Past the place `pre` the next occurrence is the next that qualifies, or none does. */
  lemma FirstWanted(j: Job, i: nat)
    requires j.Ok() && i <= |j.s|
    requires First(j.hits, i).Some? && j.pre.Some? ==> j.pre.value < First(j.hits, i).value
    ensures var f := First(j.hits, i);
      First(WantedMarks(j), i) == if f.Some? && j.Wanted(f.value) then f else None
  {
    var w, f := WantedMarks(j), First(j.hits, i);
    var g := First(w, i);
    if g.Some? { FindsFirst(j.hits, i, g.value); }
    if f.Some? && j.Wanted(f.value) { FindsFirst(w, i, f.value); }
  }

  /** Behind the place `post` nothing is replaced. */
  lemma {:induction false} PicksBehind(j: Job, limit: Option<nat>, i: nat)
    requires j.Ok() && i <= |j.s| && j.post.Some? && j.post.value <= i
    ensures Picks(j, limit, i) == []
    decreases |j.s| - i
  {
    var f := First(j.hits, i);
    if f.Some? { PicksBehind(j, limit, f.value + j.len); }
  }

  /** Every place is a mark at or behind the start. */
  lemma {:induction false} LeftmostMarks(w: seq<bool>, n: nat, len: nat, limit: Option<nat>, i: nat, p: nat)
    requires Marks(w, n, len) && i <= n && p in Leftmost(w, n, len, limit, i)
    ensures i <= p <= n && w[p]
    decreases n - i
  {
    var f := First(w, i);
    if p != f.value {
      LeftmostMarks(w, n, len, OneLess(limit), f.value + len, p);
    }
  }

  /** Starting later makes no difference when the first place lies behind the later start. */
  lemma LeftmostFrom(w: seq<bool>, n: nat, len: nat, limit: Option<nat>, r: nat)
    requires Marks(w, n, len) && r <= n && limit != Some(0)
    requires First(w, 0).Some? ==> r <= First(w, 0).value
    ensures Leftmost(w, n, len, limit, 0) == Leftmost(w, n, len, limit, r)
  {
    var f, g := First(w, 0), First(w, r);
    if g.Some? { FindsFirst(w, 0, g.value); }
    if f.Some? { FindsFirst(w, r, f.value); }
  }

  /** Leaving out marks makes no difference when none of the places is left out. */
  lemma {:induction false} LeftmostCut(w: seq<bool>, v: seq<bool>, n: nat, len: nat, limit: Option<nat>, i: nat)
    requires Marks(w, n, len) && Marks(v, n, len) && i <= n
    requires forall k :: 0 <= k <= n && v[k] ==> w[k]
    requires forall p :: p in Leftmost(w, n, len, limit, i) ==> 0 <= p <= n && v[p]
    ensures Leftmost(v, n, len, limit, i) == Leftmost(w, n, len, limit, i)
    decreases n - i
  {
    var f, g := First(w, i), First(v, i);
    if g.Some? { FindsFirst(w, i, g.value); }
    if f.Some? && limit != Some(0) {
      var rest := Leftmost(w, n, len, OneLess(limit), f.value + len);
      assert Leftmost(w, n, len, limit, i) == [f.value] + rest;
      assert f.value in [f.value] + rest && forall p :: p in rest ==> p in [f.value] + rest;
      FindsFirst(v, i, f.value);
      LeftmostCut(w, v, n, len, OneLess(limit), f.value + len);
    }
  }

  /** The engine's last `postexist` is the last of the leftmost ones. It is the true last one exactly when that is among
      the leftmost ones, which lie apart. */
  lemma LastApartIff(hits: seq<bool>, n: nat, len: nat)
    requires Marks(hits, n, len)
    ensures LastApart(hits, n, len, 0) == Last(hits)
       <==> Last(hits).None? || Last(hits).value in Leftmost(hits, n, len, None, 0)
  {
    if Last(hits).Some? { LastApartIn(hits, n, len, 0); }
  }

  lemma {:induction false} LastApartIn(hits: seq<bool>, n: nat, len: nat, i: nat)
    requires Marks(hits, n, len) && Last(hits).Some? && i <= Last(hits).value
    ensures LastApart(hits, n, len, i) == Last(hits) <==> Last(hits).value in Leftmost(hits, n, len, None, i)
    decreases n - i
  {
    var last := Last(hits).value;
    FindsFirst(hits, i, last);
    var p := First(hits, i).value;
    var rest := Leftmost(hits, n, len, None, p + len);
    assert Leftmost(hits, n, len, None, i) == [p] + rest;
    if p + len <= last {
      LastApartIn(hits, n, len, p + len);
      LastApartIsLast(hits, n, len, p + len, last);
    } else {
      assert First(hits, p + len).None? && rest == [];
    }
  }

  // ----- The engine against the reference -----

  /** The last place of the text to be met before, in full. */
  function TruePost(q: Request): Option<nat> {
    if Given(q.postexist).Some? then Last(q.HitsOf(q.postexist.value)) else None
  }

  /** The reference: occurrences strictly after the first `preexist` and strictly before the last `postexist`. */
  function Ideal(q: Request): (j: Job)
    requires q.searchfor != ""
    ensures j.Ok()
  {
    JobOf(q).(post := TruePost(q))
  }

  predicate Missing(q: Request) {
    (Given(q.preexist).Some? && PrePlace(q).None?) || (Given(q.postexist).Some? && TruePost(q).None?)
  }

  /** The places the reference replaces: the leftmost of those, non-overlapping, at most `number` of them. */
  function ExpectedPlaces(q: Request): seq<nat>
    requires q.searchfor != ""
  {
    if Missing(q) then []
    else Leftmost(WantedMarks(Ideal(q)), |q.source|, |q.searchfor|, LimitOf(q.number), 0)
  }

  /** The places the engine replaces. */
  function ReplacedPlaces(q: Request): seq<nat>
    requires q.searchfor != ""
  {
    if Missing(q) then [] else Picks(JobOf(q), LimitOf(q.number), 0)
  }

  /** The scan gets to a place: it does not step over it on its way past the first `preexist`, and the `postexist` that
      it finds last comes after it. */
  predicate InReach(q: Request, p: nat)
    requires q.searchfor != ""
  {
    Resume(JobOf(q), 0) <= p && Qualifies(None, PostPlace(q), p)
  }

  /** Both ways of finding the last `postexist` find one or neither does, and the engine's is not later. */
  lemma PostPlaces(q: Request)
    ensures PostPlace(q).None? <==> TruePost(q).None?
    ensures PostPlace(q).Some? ==> PostPlace(q).value <= TruePost(q).value
  {
    if Given(q.postexist).Some? {
      var h, n, len := q.HitsOf(q.postexist.value), |q.source|, |q.postexist.value|;
      if TruePost(q).Some? { LastApartIsLast(h, n, len, 0, TruePost(q).value); }
      if First(h, 0).Some? { LastApartIsLast(h, n, len, 0, First(h, 0).value); }
    }
  }

  /** The engine replaces the occurrences the reference asks for exactly when all of those are in reach. */
  lemma ReplacesExpected(q: Request)
    requires q.searchfor != ""
    ensures ReplacedPlaces(q) == ExpectedPlaces(q) <==> forall p :: p in ExpectedPlaces(q) ==> InReach(q, p)
  {
    if !Missing(q) {
      ReplacedFrom(q);
      if forall p :: p in ExpectedPlaces(q) ==> InReach(q, p) {
        ReachedReplaced(q);
      }
      if ReplacedPlaces(q) == ExpectedPlaces(q) {
        forall p | p in ExpectedPlaces(q) ensures InReach(q, p) {
          LeftmostMarks(WantedMarks(JobOf(q)), |q.source|, |q.searchfor|, LimitOf(q.number), Resume(JobOf(q), 0), p);
        }
      }
    }
  }

  /** The engine takes the leftmost occurrences that qualify for it from where it resumes. */
  lemma ReplacedFrom(q: Request)
    requires q.searchfor != "" && !Missing(q)
    ensures var j := JobOf(q);
      ReplacedPlaces(q) == Leftmost(WantedMarks(j), |q.source|, |q.searchfor|, LimitOf(q.number), Resume(j, 0))
  {
    PicksResume(JobOf(q), LimitOf(q.number), 0);
    PicksLeftmost(JobOf(q), LimitOf(q.number), Resume(JobOf(q), 0));
  }

  lemma ReachedReplaced(q: Request)
    requires q.searchfor != "" && !Missing(q)
    requires forall p :: p in ExpectedPlaces(q) ==> InReach(q, p)
    ensures ReplacedPlaces(q) == ExpectedPlaces(q)
  {
    var w, v, r := WantedMarks(Ideal(q)), WantedMarks(JobOf(q)), Resume(JobOf(q), 0);
    ReplacedFrom(q);
    PostPlaces(q);
    forall p | p in ExpectedPlaces(q) ensures r <= p <= |q.source| && v[p] {
      LeftmostMarks(w, |q.source|, |q.searchfor|, LimitOf(q.number), 0, p);
      assert InReach(q, p);
    }
    LeftmostReached(w, v, |q.source|, |q.searchfor|, LimitOf(q.number), r);
  }

  /** Starting later and leaving out marks makes no difference when no place is lost by either. */
  lemma LeftmostReached(w: seq<bool>, v: seq<bool>, n: nat, len: nat, limit: Option<nat>, r: nat)
    requires Marks(w, n, len) && Marks(v, n, len) && r <= n && limit != Some(0)
    requires forall k :: 0 <= k <= n && v[k] ==> w[k]
    requires forall p :: p in Leftmost(w, n, len, limit, 0) ==> r <= p <= n && v[p]
    ensures Leftmost(v, n, len, limit, r) == Leftmost(w, n, len, limit, 0)
  {
    if First(w, 0).Some? {
      var places := Leftmost(w, n, len, limit, 0);
      assert places[0] == First(w, 0).value && places[0] in places;
    }
    LeftmostFrom(w, n, len, limit, r);
    LeftmostCut(w, v, n, len, limit, r);
  }

  /** Replacing the expected places. */
  ghost function Expected(q: Request): string
    requires q.searchfor != ""
  {
    LeftmostApart(WantedMarks(Ideal(q)), |q.source|, |q.searchfor|, LimitOf(q.number), 0);
    Splice(q.source, |q.searchfor|, q.replacewith, ExpectedPlaces(q), 0)
  }

  /** The engine's result is the source with the replaced places spliced, hence the expected text when the places are. */
  lemma ReplacedSplices(q: Request)
    requires q.searchfor != ""
    ensures Apart(ReplacedPlaces(q), 0, |q.searchfor|, |q.source|)
    ensures Replaced(q) == Splice(q.source, |q.searchfor|, q.replacewith, ReplacedPlaces(q), 0)
    ensures (forall p :: p in ExpectedPlaces(q) ==> InReach(q, p)) ==> Replaced(q) == Expected(q)
  {
    PostPlaces(q);
    ReplacesExpected(q);
    if Missing(q) {
      assert q.source[0..] == q.source;
    } else {
      ScanSplice(JobOf(q), LimitOf(q.number), 0, 0);
      assert q.source[0..0] + Replaced(q) == Replaced(q);
    }
  }

  /** A hidden occurrence: the "aa" at 1 comes after the first "a", but the scan steps over it with the "aa" at 0. The
      texts agree all the same when the replacement is the "aa" again, which is why the condition is about places. */
  lemma HiddenExample(with: string)
    ensures var q := Request("aaa", "aa", with, Some("a"), None, 0, false);
      && !InReach(q, 1) && ReplacedPlaces(q) == [] && ExpectedPlaces(q) == [1]
      && Replaced(q) == "aaa" && Expected(q) == "a" + with
  {
    var q := Request("aaa", "aa", with, Some("a"), None, 0, false);
    assert Fold(false, "aaa") == "aaa" && Fold(false, "aa") == "aa" && Fold(false, "a") == "a";
    var j := JobOf(q);
    assert OccursAt("aaa", "a", 0) && j.pre == Some(0);
    OverlappingPairs(j);
    var w := WantedMarks(j);
    assert w == [false, true, false, false];
    assert First(w, 0) == Some(1) && First(w, 3) == None;
    ReplacedSplices(q);
    assert q.source[0..] == "aaa";
    SpliceFirst("aaa", 2, with, 1, [], 0);
    assert [1] + [] == [1] && "aaa"[0..1] + with + "aaa"[3..] == "a" + with;
  }

  lemma OverlappingPairs(j: Job)
    requires j.Ok() && j.s == "aaa" && j.len == 2 && j.hits == Hits("aaa", "aa") && j.pre == Some(0) && j.post == None
    ensures j.hits == [true, true, false, false] && Picks(j, None, 0) == [] && Resume(j, 0) == 2 && j.Wanted(1)
  {
    assert OccursAt("aaa", "aa", 0) && OccursAt("aaa", "aa", 1) && !OccursAt("aaa", "aa", 2) && !OccursAt("aaa", "aa", 3);
    assert j.hits == [true, true, false, false];
    assert First(j.hits, 0) == Some(0) && First(j.hits, 2) == None;
  }

  lemma LeftmostFirst(w: seq<bool>, n: nat, len: nat)
    requires Marks(w, n, len) && w[0] && forall i :: 0 < i <= n ==> !w[i]
    ensures Leftmost(w, n, len, None, 0) == [0]
  {
    assert First(w, 0) == Some(0) && First(w, len) == None;
  }

  lemma NothingWanted(j: Job)
    requires j.Ok() && forall i :: 0 <= i <= |j.s| ==> !j.Wanted(i)
    ensures Picks(j, None, 0) == [] && Scan(j, None, 0) == j.s
  {
    NoneWanted(j, 0);
    ScanSplice(j, None, 0, 0);
    assert j.s[0..] == j.s && j.s[0..0] + Scan(j, None, 0) == Scan(j, None, 0);
  }

  lemma {:induction false} NoneWanted(j: Job, i: nat)
    requires j.Ok() && i <= |j.s| && forall k :: 0 <= k <= |j.s| ==> !j.Wanted(k)
    ensures Picks(j, None, i) == []
    decreases |j.s| - i
  {
    if First(j.hits, i).Some? { NoneWanted(j, First(j.hits, i).value + j.len); }
  }

  /** One that is cut off: the "a" at 0 comes before the last "aa", which the search for it steps over. */
  lemma CutOffExample()
    ensures var q := Request("aaa", "a", "b", None, Some("aa"), 0, false);
      Replaced(q) == "aaa" && !InReach(q, 0) && ReplacedPlaces(q) == [] && ExpectedPlaces(q) == [0]
  {
    var q := Request("aaa", "a", "b", None, Some("aa"), 0, false);
    assert Fold(false, "aaa") == "aaa" && Fold(false, "aa") == "aa" && Fold(false, "a") == "a";
    LastApartMissesOverlap();
    var j := JobOf(q);
    assert j.post == Some(0) && TruePost(q) == Some(1);
    var w := WantedMarks(Ideal(q));
    assert OccursAt("aaa", "a", 0) && w == [true, false, false, false];
    NothingWanted(j);
    LeftmostFirst(w, 3, 1);
  }
}
