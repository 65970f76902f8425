/** The resumable option scanner: one call reports one option, and in permuting mode moves the
    operands it has passed behind the options while it goes. */
module OptionScanner {
  import opened Common
  import opened OptionElements
  import Rotation

  datatype Ordering = RequireOrder | Permute | ReturnInOrder

  /** The meaning of an argument list: everything reported in order, the elements that are options,
      their arguments or the terminator, and what is left unscanned at the end. */
  datatype Scan = Scan(events: seq<Event>, opts: seq<string>, tail: seq<string>)

  /** Reference reading of `rest`, with `next` still unread in its first element. With `strict` the
      first operand ends the scan. */
  ghost function Parse(cfg: Config, strict: bool, next: string, rest: seq<string>): Scan
    requires Consistent(next, rest)
    decreases |rest|, if next != "" then |next| else if rest == [] then 0 else |rest[0]|
  {
    if next != "" then
      var st := Decode(cfg, next, rest);
      var t := Parse(cfg, strict, st.next, rest[st.used..]);
      Scan([st.event] + t.events, rest[..st.used] + t.opts, t.tail)
    else if rest == [] then Scan([], [], [])
    else if rest[0] == "--" then Scan([], ["--"], rest[1..])
    else if !IsOperand(rest[0]) then Parse(cfg, strict, Punctuated(cfg, rest[0]), rest)
    else if strict then Scan([], [], rest)
    else
      var t := Parse(cfg, strict, "", rest[1..]);
      Scan([Operand(rest[0])] + t.events, t.opts, t.tail)
  }

  /** The arguments of the operand events, in order. */
  function Operands(es: seq<Event>): seq<string> {
    if es == [] then []
    else (if es[0].Operand? then [es[0].arg] else []) + Operands(es[1..])
  }

  /** The events that are not operands, in order. */
  function Options(es: seq<Event>): seq<Event> {
    if es == [] then []
    else (if es[0].Operand? then [] else [es[0]]) + Options(es[1..])
  }

  lemma ConsEvent(e: Event, es: seq<Event>)
    ensures Operands([e] + es) == (if e.Operand? then [e.arg] else []) + Operands(es)
    ensures Options([e] + es) == (if e.Operand? then [] else [e]) + Options(es)
  {
    assert ([e] + es)[1..] == es;
  }

  /** What a scan amounts to once operands may be moved to the end. */
  datatype Outline = Outline(options: seq<Event>, opts: seq<string>, operands: seq<string>, tail: seq<string>)

  ghost function OutlineOf(p: Scan): Outline {
    Outline(Options(p.events), p.opts, Operands(p.events), p.tail)
  }

  /** Passing one operand changes only the operands. */
  lemma PassOperand(cfg: Config, rest: seq<string>)
    requires rest != [] && IsOperand(rest[0])
    ensures var o := OutlineOf(Parse(cfg, false, "", rest[1..]));
            OutlineOf(Parse(cfg, false, "", rest)) == o.(operands := [rest[0]] + o.operands)
  {
    ConsEvent(Operand(rest[0]), Parse(cfg, false, "", rest[1..]).events);
  }

  lemma OperandFirst(rest: seq<string>, n: nat, more: seq<string>)
    requires 0 < n <= |rest|
    ensures rest[1..][n - 1..] == rest[n..]
    ensures [rest[0]] + (rest[1..][..n - 1] + more) == rest[..n] + more
  {
  }

  /** Passing leading operands changes only the operands. */
  lemma {:induction false} PassOperands(cfg: Config, rest: seq<string>, n: nat)
    requires n <= |rest| && forall i :: 0 <= i < n ==> IsOperand(rest[i])
    ensures var o := OutlineOf(Parse(cfg, false, "", rest[n..]));
            OutlineOf(Parse(cfg, false, "", rest)) == o.(operands := rest[..n] + o.operands)
  {
    if n == 0 {
      assert rest[n..] == rest;
    } else {
      PassOperand(cfg, rest);
      PassOperands(cfg, rest[1..], n - 1);
      OperandFirst(rest, n, OutlineOf(Parse(cfg, false, "", rest[n..])).operands);
    }
  }

  /** The exchange in terms of finished options, passed operands and the unscanned rest. */
  lemma Gathered(before: seq<string>, after: seq<string>, first: nat, last: nat, optind: nat)
    requires 1 <= first <= last <= optind <= |before|
    requires Rotation.IsRotation(before, after, first, last, optind)
    ensures |after| == |before| && after[0] == before[0] && after[optind..] == before[optind..]
    ensures after[1..first + (optind - last)] == before[1..first] + before[last..optind]
    ensures after[first + (optind - last)..optind] == before[first..last]
  {
    Rotation.RotationSlices(before, after, first, last, optind);
    assert after[1..first] == before[1..first];
  }

  /** The outline when the operands passed so far are `passed`. */
  ghost function Resumed(passed: seq<string>, o: Outline): Outline {
    o.(operands := passed + o.operands)
  }

  /** Passing more operands keeps the outline. */
  lemma PassedMore(cfg: Config, argv: seq<string>, first: nat, start: nat, optind: nat)
    requires first <= start <= optind <= |argv|
    requires forall i :: start <= i < optind ==> IsOperand(argv[i])
    ensures Resumed(argv[first..optind], OutlineOf(Parse(cfg, false, "", argv[optind..])))
         == Resumed(argv[first..start], OutlineOf(Parse(cfg, false, "", argv[start..])))
  {
    var rest, n := argv[start..], optind - start;
    PassOperands(cfg, rest, n);
    assert rest[n..] == argv[optind..];
    var o := OutlineOf(Parse(cfg, false, "", argv[optind..]));
    assert argv[first..optind] + o.operands == argv[first..start] + (rest[..n] + o.operands);
  }

  /** Brings options `[last, optind)` in front of the operands `[first, last)` they follow. Returns the
      new start of the operands. */
  method Gather(argv: array<string>, first: nat, last: nat, optind: nat) returns (first': nat)
    requires 1 <= first <= last <= optind <= argv.Length
    modifies argv
    ensures first <= first' <= optind
    ensures argv[0] == old(argv[0]) && argv[optind..] == old(argv[optind..])
    ensures argv[1..first'] == old(argv[1..first] + argv[last..optind])
    ensures argv[first'..optind] == old(argv[first..last])
    ensures first == last ==> argv[..] == old(argv[..])
  {
    ghost var before := argv[..];
    first' := first;
    if first != last && last != optind {
      Rotation.Exchange(argv, first, last, optind);
      Gathered(before, argv[..], first, last, optind);
      first' := first + (optind - last);
    } else if last != optind {
      first' := optind;
    } else {
      assert before[last..optind] == [];
    }
  }

  lemma LongNameEnd(next: string, nameend: nat)
    requires nameend <= |next| && '=' !in next[..nameend]
    requires nameend < |next| ==> next[nameend] == '='
    ensures LongName(next) == next[..nameend]
  {
  }

  lemma TerminatorFuture(cfg: Config, strict: bool, rest: seq<string>)
    requires rest != [] && rest[0] == "--"
    ensures Parse(cfg, strict, "", rest) == Scan([], ["--"], rest[1..])
    ensures OutlineOf(Parse(cfg, strict, "", rest)) == Outline([], ["--"], [], rest[1..])
  {
  }

  /** The array when the terminator at `dashes` has been moved in front of the operands before it. */
  lemma GatheredTerminator(before: seq<string>, after: seq<string>, first: nat, dashes: nat, first': nat)
    requires 1 <= first <= dashes < |before| == |after| && before[dashes] == "--"
    requires 1 <= first' <= dashes + 1
    requires after[1..first'] == before[1..first] + before[dashes..dashes + 1]
    requires after[first'..dashes + 1] == before[first..dashes]
    requires after[dashes + 1..] == before[dashes + 1..]
    ensures first' == first + 1
    ensures after[1..] == (before[1..first] + before[dashes..dashes]) + ["--"] + (before[first..dashes] + [])
                          + before[dashes..][1..]
  {
    assert first' - 1 == |after[1..first']|;
    assert after[1..] == after[1..first'] + after[first'..dashes + 1] + after[dashes + 1..];
  }

  /** Decoding one option takes its event and its elements off the reference reading. */
  lemma DecodeStep(cfg: Config, strict: bool, next: string, rest: seq<string>)
    requires next != "" && Consistent(next, rest)
    ensures var st := Decode(cfg, next, rest);
            var p, q := Parse(cfg, strict, next, rest), Parse(cfg, strict, st.next, rest[st.used..]);
            && p == Scan([st.event] + q.events, rest[..st.used] + q.opts, q.tail)
            && OutlineOf(p) == OutlineOf(q).(options := [st.event] + OutlineOf(q).options, opts := p.opts)
  {
    var st := Decode(cfg, next, rest);
    ConsEvent(st.event, Parse(cfg, strict, st.next, rest[st.used..]).events);
  }

  /** Elements move from the unscanned rest to the finished ones. */
  lemma Regroup(front: seq<string>, done: seq<string>, taken: seq<string>, opts: seq<string>)
    ensures front + (done + taken) + opts == front + done + (taken + opts)
  {
  }

  /** Taking an option off the reading, in terms of the outline. */
  lemma OutlookStep(passed: seq<string>, p: Scan, q: Scan, e: Event)
    requires p.events == [e] + q.events && p.tail == q.tail && !e.Operand?
    ensures var o := Resumed(passed, OutlineOf(q));
      Resumed(passed, OutlineOf(p)) == o.(options := [e] + o.options, opts := p.opts)
  {
    ConsEvent(e, q.events);
  }

  class Scanner {
    const cfg: Config
    const ordering: Ordering
    const argv: array<string>
    var optind: nat
    /** Unread text of the current element; empty stands for both NULL and "". */
    var nextchar: string
    var firstNonopt: nat
    var lastNonopt: nat

    ghost predicate Valid()
      reads this, argv
    {
      && 1 <= firstNonopt <= lastNonopt <= optind <= argv.Length
      && Consistent(nextchar, argv[optind..])
      && (!ordering.Permute? ==> firstNonopt == lastNonopt == 1)
    }

    /** Finished option elements, in order. */
    ghost function Done(): seq<string>
      requires Valid()
      reads this, argv
    {
      argv[1..firstNonopt] + argv[lastNonopt..optind]
    }

    /** Operands passed so far, in order. */
    ghost function Passed(): seq<string>
      requires Valid()
      reads this, argv
    {
      argv[firstNonopt..lastNonopt]
    }

    /** What the whole scan will have amounted to, apart from the options already reported. */
    ghost function Outlook(): Outline
      requires Valid()
      reads this, argv
    {
      Resumed(Passed(), OutlineOf(Future()))
    }

    /** What the reference reading says about the rest of the scan. */
    ghost function Future(): Scan
      requires Valid()
      reads this, argv
    {
      Parse(cfg, ordering.RequireOrder?, nextchar, argv[optind..])
    }

    constructor (cfg: Config, ordering: Ordering, argv: array<string>)
      requires argv.Length >= 1
      ensures Valid() && this.cfg == cfg && this.ordering == ordering && this.argv == argv
      ensures optind == 1 && nextchar == "" && Done() == [] && Passed() == []
    {
      this.cfg, this.ordering, this.argv := cfg, ordering, argv;
      firstNonopt, lastNonopt, optind := 1, 1, 1;
      nextchar := "";
    }

    /** Moves options processed since the last operands in front of those operands, then passes
        further operands. */
    method AdvancePermuting()
      requires Valid() && ordering.Permute? && nextchar == ""
      modifies argv, this`optind, this`firstNonopt, this`lastNonopt
      ensures Valid() && lastNonopt == optind >= old(optind)
      ensures argv[0] == old(argv[0]) && argv[optind..] == old(argv[..])[optind..]
      ensures optind < argv.Length ==> !IsOperand(argv[optind])
      ensures Done() == old(Done())
      ensures Outlook() == old(Outlook())
    {
      var start := optind;
      firstNonopt := Gather(argv, firstNonopt, lastNonopt, optind);
      var i := optind;
      while i < argv.Length && IsOperand(argv[i])
        invariant start <= i <= argv.Length
        invariant forall k :: start <= k < i ==> IsOperand(argv[k])
      {
        i := i + 1;
      }
      optind, lastNonopt := i, i;
      PassedMore(cfg, argv[..], firstNonopt, start, i);
    }

    /** Decodes the element the scanner stands on. */
    method DecodeCurrent() returns (e: Event)
      requires Valid() && nextchar != ""
      modifies this`optind, this`nextchar
      ensures var st := Decode(cfg, old(nextchar), argv[old(optind)..]);
              e == st.event && nextchar == st.next && optind == old(optind) + st.used
    {
      var element := argv[optind];
      if cfg.longopts.Some?
         && (element[1] == '-' || (cfg.longOnly && (|element| > 2 || IndexOf(cfg.optstring, element[1]).None?)))
      {
        var nameend := 0;
        while nameend < |nextchar| && nextchar[nameend] != '='
          invariant nameend <= |nextchar| && '=' !in nextchar[..nameend]
        {
          nameend := nameend + 1;
        }
        LongNameEnd(nextchar, nameend);
        var m := FindLong(cfg.longopts.value, nextchar[..nameend]);
        LongMatchUnique(cfg.longopts.value, nextchar[..nameend], m,
                        LongLookup(cfg.longopts.value, nextchar[..nameend]));
        if m.Ambiguous? {
          nextchar, optind := "", optind + 1;
          return Opt(QUESTION, None, None);
        }
        if m.Found? {
          e := TakeLong(m.index, nameend);
          return;
        }
        if !cfg.longOnly || element[1] == '-' || IndexOf(cfg.optstring, nextchar[0]).None? {
          nextchar, optind := "", optind + 1;
          return Opt(QUESTION, None, None);
        }
      }
      e := TakeShort();
    }

    /** A long option has been found at `index`; its name ends at `nameend`. */
    method TakeLong(index: nat, nameend: nat) returns (e: Event)
      requires Valid() && nextchar != ""
      requires cfg.longopts.Some? && index < |cfg.longopts.value|
      requires nameend <= |nextchar| && nextchar[..nameend] == LongName(nextchar)
      modifies this`optind, this`nextchar
      ensures var st := DecodeFound(cfg, index, old(nextchar), argv[old(optind)..]);
              e == st.event && nextchar == st.next && optind == old(optind) + st.used
    {
      var pfound := cfg.longopts.value[index];
      var optarg: Option<string> := None;
      optind := optind + 1;
      if nameend < |nextchar| {
        if pfound.hasArg != 0 {
          optarg := Some(nextchar[nameend + 1..]);
        } else {
          nextchar := "";
          return Opt(QUESTION, None, None);
        }
      } else if pfound.hasArg == 1 {
        if optind < argv.Length {
          optarg, optind := Some(argv[optind]), optind + 1;
        } else {
          nextchar := "";
          return MissingArgument(cfg);
        }
      }
      nextchar := "";
      return Opt(if pfound.hasFlag then 0 else pfound.val, optarg, Some(index));
    }

    /** The next character of a short cluster. */
    method TakeShort() returns (e: Event)
      requires Valid() && nextchar != ""
      modifies this`optind, this`nextchar
      ensures var st := DecodeShort(cfg, old(nextchar), argv[old(optind)..]);
              e == st.event && nextchar == st.next && optind == old(optind) + st.used
    {
      var c := nextchar[0];
      var temp := IndexOf(cfg.optstring, c);
      nextchar := nextchar[1..];
      if nextchar == "" {
        optind := optind + 1;
      }
      if temp.None? || c == ':' {
        return Opt(QUESTION, None, None);
      }
      var optarg: Option<string> := None;
      var k := temp.value;
      if k + 1 < |cfg.optstring| && cfg.optstring[k + 1] == ':' {
        if k + 2 < |cfg.optstring| && cfg.optstring[k + 2] == ':' {
          if nextchar != "" {
            optarg, optind := Some(nextchar), optind + 1;
          }
        } else if nextchar != "" {
          optarg, optind := Some(nextchar), optind + 1;
        } else if optind == argv.Length {
          return MissingArgument(cfg);
        } else {
          optarg, optind := Some(argv[optind]), optind + 1;
        }
        nextchar := "";
      }
      return Opt(c as int, optarg, None);
    }

    /** The measure that every report lowers: elements left, then unread text of the current one. */
    ghost function Unread(): nat
      requires Valid()
      reads this, argv
    {
      if nextchar != "" then |nextchar| else if optind < argv.Length then |argv[optind]| else 0
    }

    /** The scan is over: in permuting mode the array is options, then operands, then what followed the
        terminator; in every mode `optind` stands on the first element the caller should take. */
    ghost predicate AtEnd(done: seq<string>, o: Outline, p: Scan)
      reads this, argv
    {
      && argv.Length > 0
      && if ordering.Permute? then
           && o.options == []
           && argv[1..] == done + o.opts + o.operands + o.tail
           && optind == 1 + |done| + |o.opts|
         else
           p.events == [] && optind == argv.Length - |p.tail| && argv[optind..] == p.tail
    }

    /** The scanner stands on the terminator: it counts as an option, everything after it does not. */
    method Terminate()
      requires Valid() && nextchar == "" && optind < argv.Length && argv[optind] == "--"
      requires ordering.Permute? ==> lastNonopt == optind
      modifies this`optind, this`firstNonopt, this`lastNonopt, argv
      ensures argv[0] == old(argv[0])
      ensures !ordering.Permute? ==> argv[..] == old(argv[..])
      ensures AtEnd(old(Done()), old(Outlook()), old(Future()))
    {
      TerminatorFuture(cfg, ordering.RequireOrder?, argv[optind..]);
      ghost var before := argv[..];
      ghost var first, dashes := firstNonopt, optind;
      optind := optind + 1;
      firstNonopt := Gather(argv, firstNonopt, lastNonopt, optind);
      if ordering.Permute? {
        GatheredTerminator(before, argv[..], first, dashes, firstNonopt);
      }
      lastNonopt := argv.Length;
      optind := argv.Length;
      if firstNonopt != lastNonopt {
        optind := firstNonopt;
      }
    }

    /** All elements are done: back over the operands that were moved to the end. */
    method Finish()
      requires Valid() && nextchar == "" && optind == argv.Length
      requires ordering.Permute? ==> lastNonopt == optind
      modifies this`optind
      ensures AtEnd(old(Done()), old(Outlook()), old(Future()))
    {
      if firstNonopt != lastNonopt {
        optind := firstNonopt;
      }
    }

    /** The scanner stands on an operand and does not permute: stop there, or report it. */
    method MeetOperand() returns (e: Event)
      requires Valid() && nextchar == "" && optind < argv.Length && IsOperand(argv[optind]) && !ordering.Permute?
      modifies this`optind
      ensures e.Eof? || e.Operand?
      ensures e.Eof? ==> AtEnd(old(Done()), old(Outlook()), old(Future()))
      ensures e.Operand? ==> Valid() && optind == old(optind) + 1
      ensures e.Operand? ==> old(Future()) == Future().(events := [e] + Future().events)
    {
      if ordering.RequireOrder? {
        return Eof;
      }
      assert argv[optind..][1..] == argv[optind + 1..];
      optind := optind + 1;
      return Operand(argv[optind - 1]);
    }

    /** Steps onto the next element. Reports the end of the scan or an operand, or leaves the text of
        an option element in `nextchar`. */
    method NextElement() returns (r: Option<Event>)
      requires Valid() && nextchar == ""
      modifies this, argv
      ensures argv[0] == old(argv[0])
      ensures !ordering.Permute? ==> argv[..] == old(argv[..])
      ensures r.None? ==>
        && Valid() && nextchar != "" && optind >= old(optind)
        && argv[optind..] == old(argv[..])[optind..]
        && Done() == old(Done()) && Outlook() == old(Outlook())
        && (!ordering.Permute? ==> optind == old(optind) && Future() == old(Future()))
      ensures r.Some? ==> r.value.Eof? || r.value.Operand?
      ensures r == Some(Eof) ==> AtEnd(old(Done()), old(Outlook()), old(Future()))
      ensures r.Some? && r.value.Operand? ==>
        && Valid() && !ordering.Permute? && optind == old(optind) + 1
        && old(Future()) == Future().(events := [r.value] + Future().events)
    {
      if ordering.Permute? {
        AdvancePermuting();
      }
      if optind != argv.Length && argv[optind] == "--" {
        Terminate();
        return Some(Eof);
      }
      if optind == argv.Length {
        Finish();
        return Some(Eof);
      }
      if IsOperand(argv[optind]) {
        var e := MeetOperand();
        return Some(e);
      }
      nextchar := Punctuated(cfg, argv[optind]);
      return None;
    }

    /** Reports the option the scanner stands on: its event and its elements are taken off the reading. */
    method ReportOption() returns (e: Event)
      requires Valid() && nextchar != ""
      modifies this`optind, this`nextchar
      ensures Valid() && optind >= old(optind) && !e.Eof? && !e.Operand?
      ensures optind > old(optind) || (optind == old(optind) && nextchar != "" && |nextchar| < old(|nextchar|))
      ensures old(Future()) == Scan([e] + Future().events, argv[old(optind)..optind] + Future().opts, Future().tail)
    {
      ghost var strict, was, rest := ordering.RequireOrder?, optind, argv[optind..];
      ghost var st := Decode(cfg, nextchar, rest);
      ghost var q := Parse(cfg, strict, st.next, rest[st.used..]);
      assert Future() == Scan([st.event] + q.events, rest[..st.used] + q.opts, q.tail);
      e := DecodeCurrent();
      assert rest[st.used..] == argv[optind..] && rest[..st.used] == argv[was..optind];
      assert q == Future();
    }

    /** The same, and what that does to the prediction. */
    method Report() returns (e: Event)
      requires Valid() && nextchar != ""
      modifies this`optind, this`nextchar
      ensures Valid() && optind >= old(optind) && !e.Eof? && !e.Operand?
      ensures optind > old(optind) || (optind == old(optind) && nextchar != "" && |nextchar| < old(|nextchar|))
      ensures old(Future().events) == [e] + Future().events && Future().tail == old(Future().tail)
      ensures Done() + Future().opts == old(Done() + Future().opts)
      ensures old(Outlook()) == Outlook().(options := [e] + Outlook().options, opts := old(Future().opts))
    {
      ghost var was, p := optind, Future();
      e := ReportOption();
      ghost var q := Future();
      OutlookStep(Passed(), p, q, e);
      Regroup(argv[1..firstNonopt], argv[lastNonopt..was], argv[was..optind], q.opts);
      assert argv[lastNonopt..was] + argv[was..optind] == argv[lastNonopt..optind];
    }

    /** One call of the scanner. Before the end it reports the next option (or, when operands are
        reported too, the next event) of the reference reading, keeps the prediction for the rest and
        never disturbs the unscanned elements. */
    method Next() returns (e: Event)
      requires Valid()
      modifies this, argv
      ensures argv[0] == old(argv[0])
      ensures !ordering.Permute? ==> argv[..] == old(argv[..])
      ensures e.Eof? ==> AtEnd(old(Done()), old(Outlook()), old(Future()))
      ensures !e.Eof? ==> Valid() && optind >= old(optind) && argv[optind..] == old(argv[..])[optind..]
      ensures !e.Eof? ==> optind > old(optind) || Unread() < old(Unread())
      ensures !e.Eof? && ordering.Permute? ==>
        && !e.Operand?
        && Done() + Outlook().opts == old(Done() + Outlook().opts)
        && old(Outlook()) == Outlook().(options := [e] + Outlook().options, opts := old(Outlook().opts))
      ensures !e.Eof? && !ordering.Permute? ==>
        && old(Future().events) == [e] + Future().events
        && Future().tail == old(Future().tail)
    {
      if nextchar == "" {
        var r := NextElement();
        if r.Some? {
          return r.value;
        }
      }
      e := Report();
    }
  }
}
