/** Whole scans: the three orderings against the reference reading and against each other. */
module OptionScans {
  import opened Common
  import opened OptionElements
  import opened OptionScanner

  lemma Shift<T>(es: seq<T>, e: T, more: seq<T>, all: seq<T>)
    requires all == es + ([e] + more)
    ensures all == (es + [e]) + more
  {
  }

  /** Calls a permuting scanner until it reports the end. The array ends up as the options, then the
      operands, each in their original order. */
  method ScanPermuting(cfg: Config, argv: array<string>) returns (events: seq<Event>, optind: nat)
    requires argv.Length >= 1
    modifies argv
    ensures var p := Parse(cfg, false, "", old(argv[1..]));
            && events == Options(p.events)
            && argv[0] == old(argv[0])
            && argv[1..] == p.opts + Operands(p.events) + p.tail
            && optind == 1 + |p.opts| <= argv.Length
  {
    var s := new Scanner(cfg, Permute, argv);
    ghost var o := s.Outlook();
    assert o == OutlineOf(Parse(cfg, false, "", old(argv[1..])));
    events := [];
    while true
      invariant fresh(s) && s.argv == argv && s.cfg == cfg && Scanning(s, events, o)
      invariant argv[0] == old(argv[0])
      decreases argv.Length - s.optind, s.Unread()
    {
      var done;
      done, events := TakeNext(s, events, o);
      if done {
        return events, s.optind;
      }
    }
  }

  /** A permuting scanner has reported `events`, and `o` is what the whole scan amounts to. */
  ghost predicate Scanning(s: Scanner, events: seq<Event>, o: Outline)
    reads s, s.argv
  {
    && s.Valid() && s.ordering == Permute
    && s.Done() + s.Outlook().opts == o.opts && o.options == events + s.Outlook().options
    && s.Outlook().operands == o.operands && s.Outlook().tail == o.tail
  }

  /** One call of a permuting scanner; at the end the array is what the scan amounts to. */
  method TakeNext(s: Scanner, events: seq<Event>, ghost o: Outline) returns (done: bool, events': seq<Event>)
    requires Scanning(s, events, o)
    modifies s, s.argv
    ensures s.argv.Length > 0 && s.argv[0] == old(s.argv[0])
    ensures !done ==> Scanning(s, events', o) && s.optind >= old(s.optind)
    ensures !done ==> s.optind > old(s.optind) || s.Unread() < old(s.Unread())
    ensures done ==>
      events' == o.options && s.argv[1..] == o.opts + o.operands + o.tail && s.optind == 1 + |o.opts| <= s.argv.Length
  {
    var e := s.Next();
    done, events' := e.Eof?, events;
    if !done {
      Shift(events, e, s.Outlook().options, o.options);
      events' := events + [e];
    }
  }

  /** Calls a scanner that keeps the order until it reports the end. */
  method ScanInOrder(cfg: Config, ordering: Ordering, argv: array<string>) returns (events: seq<Event>, optind: nat)
    requires argv.Length >= 1 && !ordering.Permute?
    modifies argv
    ensures argv[..] == old(argv[..])
    ensures var p := Parse(cfg, ordering.RequireOrder?, "", argv[1..]);
            events == p.events && optind <= argv.Length && argv[optind..] == p.tail
  {
    var s := new Scanner(cfg, ordering, argv);
    ghost var p := s.Future();
    events := [];
    while true
      invariant fresh(s) && s.Valid() && s.argv == argv && s.cfg == cfg && s.ordering == ordering
      invariant argv[..] == old(argv[..])
      invariant p.events == events + s.Future().events && s.Future().tail == p.tail
      decreases argv.Length - s.optind, s.Unread()
    {
      var e := s.Next();
      if e.Eof? {
        return events, s.optind;
      }
      Shift(events, e, s.Future().events, p.events);
      events := events + [e];
    }
  }

  /** Permuting and reporting operands in place read the same command line alike: the same options with
      the same arguments, and the permuting caller is left with exactly the operands the other one was
      told about, followed by what stands after the terminator. */
  method CompareOrderings(cfg: Config, argv: array<string>, copy: array<string>)
    returns (permuted: seq<Event>, inOrder: seq<Event>, optind: nat, optind': nat)
    requires argv != copy && argv.Length >= 1 && argv[..] == copy[..]
    modifies argv, copy
    ensures permuted == Options(inOrder)
    ensures optind <= argv.Length && optind' <= copy.Length
    ensures argv[optind..] == Operands(inOrder) + copy[optind'..]
    ensures copy[..] == old(argv[..])
  {
    assert argv[1..] == copy[1..];
    permuted, optind := ScanPermuting(cfg, argv);
    inOrder, optind' := ScanInOrder(cfg, ReturnInOrder, copy);
    ghost var p := Parse(cfg, false, "", copy[1..]);
    AfterOptions(argv[..], p.opts, Operands(p.events), p.tail);
  }

  lemma AfterOptions(argv: seq<string>, opts: seq<string>, operands: seq<string>, tail: seq<string>)
    requires |argv| >= 1 && argv[1..] == opts + operands + tail
    ensures 1 + |opts| <= |argv| && argv[1 + |opts|..] == operands + tail
  {
    assert argv[1 + |opts|..] == argv[1..][|opts|..];
    assert opts + operands + tail == opts + (operands + tail);
  }

  /** `s` is a merge of `a` and `b`: both keep their order and nothing is lost or added. */
  ghost predicate IsMerge<T(!new)>(a: seq<T>, b: seq<T>, s: seq<T>)
    decreases |s|
  {
    if s == [] then a == [] && b == []
    else
      || (a != [] && a[0] == s[0] && IsMerge(a[1..], b, s[1..]))
      || (b != [] && b[0] == s[0] && IsMerge(a, b[1..], s[1..]))
  }

  lemma {:induction false} MergePrefix<T(!new)>(front: seq<T>, a: seq<T>, b: seq<T>, s: seq<T>)
    requires IsMerge(a, b, s)
    ensures IsMerge(front + a, b, front + s)
    decreases |front|
  {
    if front == [] {
      assert front + a == a && front + s == s;
    } else {
      MergePrefix(front[1..], a, b, s);
      assert (front + a)[1..] == front[1..] + a;
      assert (front + s)[1..] == front[1..] + s;
    }
  }

  lemma {:induction false} MergeRight<T(!new)>(b: seq<T>)
    ensures IsMerge([], b, b)
  {
    if b != [] {
      MergeRight(b[1..]);
    }
  }

  /** The reading is a stable partition: options (with their arguments and the terminator) and operands
      keep their order and together are exactly the scanned elements. */
  lemma {:induction false} StablePartition(cfg: Config, next: string, rest: seq<string>)
    requires Consistent(next, rest)
    ensures var p := Parse(cfg, false, next, rest); IsMerge(p.opts, Operands(p.events) + p.tail, rest)
    decreases |rest|, if next != "" then |next| else if rest == [] then 0 else |rest[0]|
  {
    if next != "" {
      PartitionStep(cfg, next, rest);
    } else if rest == [] {
    } else if rest[0] == "--" {
      MergeRight(rest[1..]);
      MergePrefix(["--"], [], rest[1..], rest[1..]);
      TerminatorFuture(cfg, false, rest);
      assert ["--"] + rest[1..] == rest && [] + rest[1..] == rest[1..];
    } else if !IsOperand(rest[0]) {
      StablePartition(cfg, Punctuated(cfg, rest[0]), rest);
    } else {
      StablePartition(cfg, "", rest[1..]);
      PartitionOperand(cfg, rest);
    }
  }

  lemma {:induction false} PartitionStep(cfg: Config, next: string, rest: seq<string>)
    requires next != "" && Consistent(next, rest)
    ensures var p := Parse(cfg, false, next, rest); IsMerge(p.opts, Operands(p.events) + p.tail, rest)
    decreases |rest|, |next|, 0
  {
    var st := Decode(cfg, next, rest);
    var rest' := rest[st.used..];
    StablePartition(cfg, st.next, rest');
    DecodeStep(cfg, false, next, rest);
    var p, q := Parse(cfg, false, next, rest), Parse(cfg, false, st.next, rest');
    var operands := Operands(q.events) + q.tail;
    assert Operands(p.events) + p.tail == operands;
    MergePrefix(rest[..st.used], q.opts, operands, rest');
    assert rest[..st.used] + rest' == rest;
  }

  lemma PartitionOperand(cfg: Config, rest: seq<string>)
    requires rest != [] && IsOperand(rest[0]) && rest[0] != "--"
    requires var q := Parse(cfg, false, "", rest[1..]); IsMerge(q.opts, Operands(q.events) + q.tail, rest[1..])
    ensures var p := Parse(cfg, false, "", rest); IsMerge(p.opts, Operands(p.events) + p.tail, rest)
  {
    var p, q := Parse(cfg, false, "", rest), Parse(cfg, false, "", rest[1..]);
    var operands := Operands(q.events) + q.tail;
    assert p.opts == q.opts && p.tail == q.tail && Operands(p.events) == [rest[0]] + Operands(q.events) by {
      PassOperand(cfg, rest);
    }
    Join([rest[0]], Operands(q.events), q.tail);
    MergeOperand(rest[0], q.opts, operands, rest[1..]);
    assert [rest[0]] + rest[1..] == rest;
  }

  lemma MergeOperand<T(!new)>(x: T, a: seq<T>, b: seq<T>, s: seq<T>)
    requires IsMerge(a, b, s)
    ensures IsMerge(a, [x] + b, [x] + s)
  {
    assert ([x] + b)[1..] == b && ([x] + s)[1..] == s;
  }

  /** Stopping at the first operand gives the part of the full reading before it. */
  lemma {:induction false} StrictIsPrefix(cfg: Config, next: string, rest: seq<string>)
    requires Consistent(next, rest)
    ensures var p, q := Parse(cfg, true, next, rest), Parse(cfg, false, next, rest);
            && Options(p.events) == p.events
            && (|| (p.events == q.events && p.tail == q.tail && p.opts == q.opts)
                || (&& p.tail != [] && IsOperand(p.tail[0])
                    && q.events == p.events + Parse(cfg, false, "", p.tail).events))
    decreases |rest|, if next != "" then |next| else if rest == [] then 0 else |rest[0]|
  {
    if next != "" {
      var st := Decode(cfg, next, rest);
      StrictIsPrefix(cfg, st.next, rest[st.used..]);
      ConsEvent(st.event, Parse(cfg, true, st.next, rest[st.used..]).events);
    } else if rest != [] && rest[0] != "--" && !IsOperand(rest[0]) {
      StrictIsPrefix(cfg, Punctuated(cfg, rest[0]), rest);
    }
  }
}
