/** Command lines as their author means them, and that the scanner's reading recovers that meaning. */
module CommandLines {
  import opened Common
  import opened OptionElements
  import opened OptionScanner
  import opened OptionScans

  /** One use of an option, or one operand, as written on a command line. Letters without an argument may stand in front of
      the last letter of a short element. The last three are mistakes. */
  datatype Use =
    | Word(text: string)
    | Cluster(letters: string)
    | Bare(letters: string, letter: char)
    | Attached(letters: string, letter: char, arg: string)
    | Separate(letters: string, letter: char, arg: string)
    | LongBare(single: bool, spelling: string, index: nat)
    | LongEquals(single: bool, spelling: string, index: nat, arg: string)
    | LongSeparate(single: bool, spelling: string, index: nat, arg: string)
    | UnknownLong(single: bool, text: string)
    | AmbiguousLong(single: bool, text: string)
    | NeedlessArg(single: bool, spelling: string, index: nat, arg: string)

  /** How a command line ends: just so, with the terminator and what follows it, or with an option whose argument is missing. */
  datatype Ending =
    | Open
    | Closed(tail: seq<string>)
    | MissingShort(letters: string, letter: char)
    | MissingLong(single: bool, spelling: string, index: nat)

  /** `spelling` names long option `index`, in full or by a unique abbreviation. */
  ghost predicate Names(cfg: Config, spelling: string, index: nat) {
    && cfg.longopts.Some? && index < |cfg.longopts.value|
    && '=' !in spelling && IsLongMatch(cfg.longopts.value, spelling, Found(index))
  }

  /** Elements with one dash may be long options. */
  predicate SingleDash(cfg: Config) { cfg.longOnly && cfg.longopts.Some? }

  /** In long-only mode the text left in a short element must not be taken for a long name or an abbreviation of one. An
      element of one letter is safe. */
  ghost predicate NotLong(cfg: Config, element: string, text: string) {
    SingleDash(cfg) && |element| > 2 ==> IsLongMatch(cfg.longopts.value, LongName(text), NoMatch)
  }

  /** In long-only mode an unknown letter makes the whole element unknown. */
  predicate ShortLetter(cfg: Config, c: char) { SingleDash(cfg) ==> c in cfg.optstring }

  /** The text behind one dash, first some letters without an argument, known or not, is read as short options. */
  ghost predicate ShortText(cfg: Config, letters: string, last: string) {
    var text := letters + last;
    && text != "" && (text[0] == '-' ==> cfg.longopts.None? && |text| > 1)
    && (forall i :: 0 <= i < |letters| ==> ShortLetter(cfg, letters[i]) && Plain(cfg, letters[i]))
    && (forall i :: 0 <= i < |text| && i <= |letters| ==> NotLong(cfg, "-" + text, text[i..]))
  }

  /** The letter takes no argument, or is unknown. */
  predicate Plain(cfg: Config, c: char) { ArityOf(cfg.optstring, c).NoArgument? || ArityOf(cfg.optstring, c).Unknown? }

  /** Long options may be written with one dash in long-only mode, unless they then look like a short option. */
  ghost predicate DashesOk(cfg: Config, single: bool, text: string) {
    text != "" && (single ==> cfg.longOnly && text[0] != '-' && (|text| > 1 || text[0] !in cfg.optstring))
  }

  function Dashes(single: bool): string { if single then "-" else "--" }

  /** The use agrees with the caller's description of its options, or is one of the mistakes. */
  ghost predicate WellFormed(cfg: Config, u: Use) {
    match u
    case Word(text) => text == "-" || text == "" || text[0] != '-'
    case Cluster(letters) => ShortText(cfg, letters, "")
    case Bare(letters, c) => ShortText(cfg, letters, [c]) && ArityOf(cfg.optstring, c).Optional?
    case Attached(letters, c, arg) =>
      && arg != "" && ShortText(cfg, letters, [c] + arg)
      && (ArityOf(cfg.optstring, c).Optional? || ArityOf(cfg.optstring, c).Required?)
    case Separate(letters, c, arg) => ShortText(cfg, letters, [c]) && ArityOf(cfg.optstring, c).Required?
    case LongBare(single, spelling, i) =>
      Names(cfg, spelling, i) && cfg.longopts.value[i].hasArg != 1 && DashesOk(cfg, single, spelling)
    case LongEquals(single, spelling, i, arg) =>
      Names(cfg, spelling, i) && cfg.longopts.value[i].hasArg != 0 && DashesOk(cfg, single, spelling + "=" + arg)
    case LongSeparate(single, spelling, i, arg) =>
      Names(cfg, spelling, i) && cfg.longopts.value[i].hasArg == 1 && DashesOk(cfg, single, spelling)
    case UnknownLong(single, text) =>
      && cfg.longopts.Some? && DashesOk(cfg, single, text) && (single ==> text[0] !in cfg.optstring)
      && IsLongMatch(cfg.longopts.value, LongName(text), NoMatch)
    case AmbiguousLong(single, text) =>
      cfg.longopts.Some? && DashesOk(cfg, single, text) && IsLongMatch(cfg.longopts.value, LongName(text), Ambiguous)
    case NeedlessArg(single, spelling, i, arg) =>
      Names(cfg, spelling, i) && cfg.longopts.value[i].hasArg == 0 && DashesOk(cfg, single, spelling + "=" + arg)
  }

  ghost predicate EndsWell(cfg: Config, end: Ending) {
    match end
    case Open => true
    case Closed(_) => true
    case MissingShort(letters, c) => ShortText(cfg, letters, [c]) && ArityOf(cfg.optstring, c).Required?
    case MissingLong(single, spelling, i) =>
      Names(cfg, spelling, i) && cfg.longopts.value[i].hasArg == 1 && DashesOk(cfg, single, spelling)
  }

  /** The elements that spell the use. */
  function Written(u: Use): seq<string> {
    match u
    case Word(text) => [text]
    case Cluster(letters) => ["-" + letters]
    case Bare(letters, c) => ["-" + (letters + [c])]
    case Attached(letters, c, arg) => ["-" + (letters + ([c] + arg))]
    case Separate(letters, c, arg) => ["-" + (letters + [c]), arg]
    case LongBare(single, spelling, _) => [Dashes(single) + spelling]
    case LongEquals(single, spelling, _, arg) => [Dashes(single) + (spelling + "=" + arg)]
    case LongSeparate(single, spelling, _, arg) => [Dashes(single) + spelling, arg]
    case UnknownLong(single, text) => [Dashes(single) + text]
    case AmbiguousLong(single, text) => [Dashes(single) + text]
    case NeedlessArg(single, spelling, _, arg) => [Dashes(single) + (spelling + "=" + arg)]
  }

  function WrittenEnd(end: Ending): seq<string> {
    match end
    case Open => []
    case Closed(tail) => ["--"] + tail
    case MissingShort(letters, c) => ["-" + (letters + [c])]
    case MissingLong(single, spelling, _) => [Dashes(single) + spelling]
  }

  function LongCode(cfg: Config, index: nat): int
    requires cfg.longopts.Some? && index < |cfg.longopts.value|
  {
    if cfg.longopts.value[index].hasFlag then 0 else cfg.longopts.value[index].val
  }

  /** What is reported for a mistake. */
  const MISTAKE := Opt('?' as int, None, None)

  /** A letter without an argument is reported, or '?' in its place if it is unknown. */
  function Letter(cfg: Config, c: char): Event { if c in cfg.optstring && c != ':' then Opt(c as int, None, None) else MISTAKE }

  function Letters(cfg: Config, letters: string): seq<Event> {
    if letters == "" then [] else [Letter(cfg, letters[0])] + Letters(cfg, letters[1..])
  }

  /** What a caller who is told about operands should be told about the use. */
  ghost function Meant(cfg: Config, u: Use): seq<Event>
    requires WellFormed(cfg, u)
  {
    match u
    case Word(text) => [Operand(text)]
    case Cluster(letters) => Letters(cfg, letters)
    case Bare(letters, c) => Letters(cfg, letters) + [Opt(c as int, None, None)]
    case Attached(letters, c, arg) => Letters(cfg, letters) + [Opt(c as int, Some(arg), None)]
    case Separate(letters, c, arg) => Letters(cfg, letters) + [Opt(c as int, Some(arg), None)]
    case LongBare(_, _, i) => [Opt(LongCode(cfg, i), None, Some(i))]
    case LongEquals(_, _, i, arg) => [Opt(LongCode(cfg, i), Some(arg), Some(i))]
    case LongSeparate(_, _, i, arg) => [Opt(LongCode(cfg, i), Some(arg), Some(i))]
    case UnknownLong(_, _) => [MISTAKE]
    case AmbiguousLong(_, _) => [MISTAKE]
    case NeedlessArg(_, _, _, _) => [MISTAKE]
  }

  /** A missing argument is reported by a colon to a caller whose option string starts with one. */
  function Missing(cfg: Config): Event { if ":" <= cfg.optstring then Opt(':' as int, None, None) else MISTAKE }

  ghost function MeantEnd(cfg: Config, end: Ending): seq<Event> {
    match end
    case Open => []
    case Closed(_) => []
    case MissingShort(letters, _) => Letters(cfg, letters) + [Missing(cfg)]
    case MissingLong(_, _, _) => [Missing(cfg)]
  }

  // ----- Reading one use -----

  /** The reading of `front + more` is `events`, then the reading of `more`. */
  ghost predicate Reads(cfg: Config, next: string, front: seq<string>, events: seq<Event>, more: seq<string>) {
    && Consistent(next, front + more)
    && var p, q := Parse(cfg, false, next, front + more), Parse(cfg, false, "", more);
    p.events == events + q.events && p.tail == q.tail
  }

  /** A decoding step that finishes `front`. */
  lemma ReadStep(cfg: Config, next: string, front: seq<string>, st: Step, more: seq<string>)
    requires next != "" && Consistent(next, front + more)
    requires Decode(cfg, next, front + more) == st && st.next == "" && st.used == |front|
    ensures Reads(cfg, next, front, [st.event], more)
  {
    DecodeStep(cfg, false, next, front + more);
    assert (front + more)[|front|..] == more;
  }

  /** A decoding step that stays inside its element. */
  lemma ReadInside(cfg: Config, next: string, front: seq<string>, e: Event, es: seq<Event>, more: seq<string>)
    requires next != "" && Consistent(next, front + more)
    requires Decode(cfg, next, front + more) == Step(e, next[1..], 0)
    requires Reads(cfg, next[1..], front, es, more)
    ensures Reads(cfg, next, front, [e] + es, more)
  {
    DecodeStep(cfg, false, next, front + more);
    assert (front + more)[0..] == front + more;
    var q := Parse(cfg, false, "", more);
    assert [e] + (es + q.events) == ([e] + es) + q.events;
  }

  /** A fresh element is read from behind its punctuation. */
  lemma ReadFresh(cfg: Config, front: seq<string>, es: seq<Event>, more: seq<string>)
    requires front != [] && !IsOperand(front[0]) && front[0] != "--" && Reads(cfg, Punctuated(cfg, front[0]), front, es, more)
    ensures Reads(cfg, "", front, es, more)
  {
    assert (front + more)[0] == front[0];
  }

  /** Text that is not a long name is decoded as a short option. */
  lemma DecodeAsShort(cfg: Config, next: string, rest: seq<string>)
    requires next != "" && Consistent(next, rest) && NotLong(cfg, rest[0], next)
    requires (cfg.longopts.Some? ==> rest[0][1] != '-') && ShortLetter(cfg, next[0])
    requires |rest[0]| == 2 ==> next[0] == rest[0][1]
    ensures Decode(cfg, next, rest) == DecodeShort(cfg, next, rest)
  {
    if cfg.longopts.Some? && IsLongMatch(cfg.longopts.value, LongName(next), NoMatch) {
      LongMatchUnique(cfg.longopts.value, LongName(next), NoMatch, LongLookup(cfg.longopts.value, LongName(next)));
    }
  }

  lemma DecodeLetter(cfg: Config, next: string, rest: seq<string>)
    requires next != "" && Consistent(next, rest) && NotLong(cfg, rest[0], next)
    requires (cfg.longopts.Some? ==> rest[0][1] != '-') && ShortLetter(cfg, next[0]) && Plain(cfg, next[0])
    requires |rest[0]| == 2 ==> next[0] == rest[0][1]
    ensures Decode(cfg, next, rest) == Step(Letter(cfg, next[0]), next[1..], if next[1..] == "" then 1 else 0)
  {
    DecodeAsShort(cfg, next, rest);
  }

  lemma {:induction false} LettersFirst(cfg: Config, letters: string, last: string, es: seq<Event>)
    requires letters != ""
    ensures (letters + last)[0] == letters[0] && (letters + last)[1..] == letters[1..] + last && letters[0..] == letters
    ensures Letters(cfg, letters) + es == [Letter(cfg, letters[0])] + (Letters(cfg, letters[1..]) + es)
  {
    Join([Letter(cfg, letters[0])], Letters(cfg, letters[1..]), es);
  }

  /** The letters of a short element are reported one by one, and then what the text behind them amounts to. */
  lemma {:induction false} ReadLetters(cfg: Config, front: seq<string>, letters: string, last: string, es: seq<Event>,
                                       more: seq<string>)
    requires front != [] && !IsOperand(front[0]) && (cfg.longopts.Some? ==> front[0][1] != '-')
    requires |letters + last| < |front[0]| && (|front[0]| == 2 && letters != "" ==> letters[0] == front[0][1])
    requires forall i :: 0 <= i < |letters| ==>
      ShortLetter(cfg, letters[i]) && Plain(cfg, letters[i]) && NotLong(cfg, front[0], letters[i..] + last)
    requires if last == "" then |front| == 1 && es == [] && letters != "" else Reads(cfg, last, front, es, more)
    ensures Reads(cfg, letters + last, front, Letters(cfg, letters) + es, more)
    decreases |letters|
  {
    if letters == "" {
      assert letters + last == last && Letters(cfg, letters) + es == es;
    } else {
      var next, tail, e := letters + last, letters[1..], Letter(cfg, letters[0]);
      LettersFirst(cfg, letters, last, es);
      assert (front + more)[0] == front[0];
      DecodeLetter(cfg, next, front + more);
      if next[1..] == "" {
        ReadStep(cfg, next, front, Step(e, "", 1), more);
        assert Letters(cfg, tail) + es == [];
      } else {
        assert forall i :: 0 <= i < |tail| ==> tail[i] == letters[i + 1] && tail[i..] == letters[i + 1..];
        ReadLetters(cfg, front, tail, last, es, more);
        ReadInside(cfg, next, front, e, Letters(cfg, tail) + es, more);
      }
    }
  }

  /** A short element: letters, and perhaps a last one with its argument or without one that it could take. */
  lemma ReadShort(cfg: Config, front: seq<string>, letters: string, last: string, es: seq<Event>, more: seq<string>)
    requires front != [] && front[0] == "-" + (letters + last) && ShortText(cfg, letters, last)
    requires last == "" ==> |front| == 1 && es == []
    requires last != "" ==>
      && ShortLetter(cfg, last[0]) && |es| == 1 && Consistent(last, front + more)
      && DecodeShort(cfg, last, front + more) == Step(es[0], "", |front|)
    ensures Reads(cfg, "", front, Letters(cfg, letters) + es, more)
  {
    var text := letters + last;
    assert (front + more)[0] == front[0] && front[0][1..] == text && front[0][1] == text[0];
    if last != "" {
      assert text[|letters|..] == last;
      DecodeAsShort(cfg, last, front + more);
      ReadStep(cfg, last, front, Step(es[0], "", |front|), more);
      assert [es[0]] == es;
    }
    forall i | 0 <= i < |letters| ensures NotLong(cfg, front[0], letters[i..] + last) {
      assert text[i..] == letters[i..] + last;
    }
    ReadLetters(cfg, front, letters, last, es, more);
    ReadFresh(cfg, front, Letters(cfg, letters) + es, more);
  }

  lemma NameBeforeEquals(spelling: string, arg: string)
    requires '=' !in spelling
    ensures IndexOf(spelling, '=').None? && LongName(spelling) == spelling
    ensures IndexOf(spelling + "=" + arg, '=') == Some(|spelling|)
    ensures LongName(spelling + "=" + arg) == spelling && (spelling + "=" + arg)[|spelling| + 1..] == arg
  {
    var s := spelling + "=" + arg;
    assert s[|spelling|] == '=';
    assert s[..|spelling|] == spelling;
    assert IndexOf(s, '=').value <= |spelling|;
  }

  /** An element that is looked up as a long option with answer `m`. */
  lemma ReadLong(cfg: Config, m: LongMatch, single: bool, next: string, front: seq<string>, e: Event, more: seq<string>)
    requires cfg.longopts.Some? && DashesOk(cfg, single, next) && IsLongMatch(cfg.longopts.value, LongName(next), m)
    requires front != [] && front[0] == Dashes(single) + next && Consistent(next, front + more)
    requires match m
      case Found(i) => DecodeFound(cfg, i, next, front + more) == Step(e, "", |front|)
      case Ambiguous => e == MISTAKE && |front| == 1
      case NoMatch => e == MISTAKE && |front| == 1 && (single ==> next[0] !in cfg.optstring)
    ensures Reads(cfg, "", front, [e], more)
  {
    assert front[0][|Dashes(single)|..] == next && (front + more)[0] == front[0];
    LongMatchUnique(cfg.longopts.value, LongName(next), m, LongLookup(cfg.longopts.value, LongName(next)));
    ReadStep(cfg, next, front, Step(e, "", |front|), more);
    ReadFresh(cfg, front, [e], more);
  }

  lemma ReadNamed(cfg: Config, single: bool, spelling: string, i: nat, front: seq<string>, e: Event, more: seq<string>)
    requires Names(cfg, spelling, i) && DashesOk(cfg, single, spelling) && front != [] && front[0] == Dashes(single) + spelling
    requires Consistent(spelling, front + more) && DecodeFound(cfg, i, spelling, front + more) == Step(e, "", |front|)
    ensures Reads(cfg, "", front, [e], more)
  {
    NameBeforeEquals(spelling, "");
    ReadLong(cfg, Found(i), single, spelling, front, e, more);
  }

  lemma ReadEquals(cfg: Config, single: bool, spelling: string, i: nat, arg: string, more: seq<string>)
    requires Names(cfg, spelling, i) && DashesOk(cfg, single, spelling + "=" + arg)
    ensures var e := if cfg.longopts.value[i].hasArg != 0 then Opt(LongCode(cfg, i), Some(arg), Some(i)) else MISTAKE;
      Reads(cfg, "", [Dashes(single) + (spelling + "=" + arg)], [e], more)
  {
    var next := spelling + "=" + arg;
    var e := if cfg.longopts.value[i].hasArg != 0 then Opt(LongCode(cfg, i), Some(arg), Some(i)) else MISTAKE;
    NameBeforeEquals(spelling, arg);
    ReadLong(cfg, Found(i), single, next, [Dashes(single) + next], e, more);
  }

  /** Every use is read as meant, whatever follows it, and so is every mistake: an unknown letter, a long name that is
      unknown or ambiguous, and an argument that is not wanted are each reported by one '?', and the reading goes on. */
  lemma ReadUse(cfg: Config, u: Use, more: seq<string>)
    requires WellFormed(cfg, u)
    ensures Reads(cfg, "", Written(u), Meant(cfg, u), more)
  {
    var front := Written(u);
    match u
    case Word(text) =>
      assert (front + more)[1..] == more;
    case Cluster(letters) =>
      assert letters + "" == letters && Letters(cfg, letters) + [] == Letters(cfg, letters);
      ReadShort(cfg, front, letters, "", [], more);
    case Bare(letters, c) =>
      ReadShort(cfg, front, letters, [c], [Opt(c as int, None, None)], more);
    case Attached(letters, c, arg) =>
      assert ([c] + arg)[1..] == arg;
      ReadShort(cfg, front, letters, [c] + arg, [Opt(c as int, Some(arg), None)], more);
    case Separate(letters, c, arg) =>
      ReadShort(cfg, front, letters, [c], [Opt(c as int, Some(arg), None)], more);
    case LongBare(single, spelling, i) =>
      NameBeforeEquals(spelling, "");
      ReadNamed(cfg, single, spelling, i, front, Meant(cfg, u)[0], more);
    case LongEquals(single, spelling, i, arg) =>
      ReadEquals(cfg, single, spelling, i, arg, more);
    case LongSeparate(single, spelling, i, arg) =>
      NameBeforeEquals(spelling, "");
      ReadNamed(cfg, single, spelling, i, front, Meant(cfg, u)[0], more);
    case UnknownLong(single, text) =>
      ReadLong(cfg, NoMatch, single, text, front, MISTAKE, more);
    case AmbiguousLong(single, text) =>
      ReadLong(cfg, Ambiguous, single, text, front, MISTAKE, more);
    case NeedlessArg(single, spelling, i, arg) =>
      ReadEquals(cfg, single, spelling, i, arg, more);
  }

  // ----- Reading a whole line -----

  function WrittenAll(us: seq<Use>): seq<string> {
    if us == [] then [] else Written(us[0]) + WrittenAll(us[1..])
  }

  ghost predicate AllWellFormed(cfg: Config, us: seq<Use>) { forall i :: 0 <= i < |us| ==> WellFormed(cfg, us[i]) }

  ghost function MeantAll(cfg: Config, us: seq<Use>): seq<Event>
    requires AllWellFormed(cfg, us)
  {
    if us == [] then [] else Meant(cfg, us[0]) + MeantAll(cfg, us[1..])
  }

  /** A command line: the uses as written, and its ending. */
  function Line(us: seq<Use>, end: Ending): seq<string> { WrittenAll(us) + WrittenEnd(end) }

  /** What follows the terminator. */
  function TailOf(end: Ending): seq<string> { if end.Closed? then end.tail else [] }

  lemma ReadEnding(cfg: Config, end: Ending)
    requires EndsWell(cfg, end)
    ensures var p := Parse(cfg, false, "", WrittenEnd(end)); p.events == MeantEnd(cfg, end) && p.tail == TailOf(end)
  {
    var line := WrittenEnd(end);
    assert line + [] == line;
    match end
    case Open =>
    case Closed(tail) => TerminatorFuture(cfg, false, line);
    case MissingShort(letters, c) =>
      ReadShort(cfg, line, letters, [c], [Missing(cfg)], []);
    case MissingLong(single, spelling, i) =>
      NameBeforeEquals(spelling, "");
      ReadNamed(cfg, single, spelling, i, line, Missing(cfg), []);
  }

  /** Writing any list of option uses, operands and mistakes with any ending, and reading it back recovers the uses with
      their arguments and the mistakes in their places, and leaves what follows the terminator. */
  lemma {:induction false} ReadBack(cfg: Config, us: seq<Use>, end: Ending)
    requires AllWellFormed(cfg, us) && EndsWell(cfg, end)
    ensures var p := Parse(cfg, false, "", Line(us, end));
            p.events == MeantAll(cfg, us) + MeantEnd(cfg, end) && p.tail == TailOf(end)
  {
    if us == [] {
      ReadEnding(cfg, end);
      assert Line(us, end) == WrittenEnd(end) && [] + MeantEnd(cfg, end) == MeantEnd(cfg, end);
    } else {
      var more := Line(us[1..], end);
      Join(Written(us[0]), WrittenAll(us[1..]), WrittenEnd(end));
      assert Line(us, end) == Written(us[0]) + more;
      ReadBack(cfg, us[1..], end);
      ReadUse(cfg, us[0], more);
      Join(Meant(cfg, us[0]), MeantAll(cfg, us[1..]), MeantEnd(cfg, end));
    }
  }

  /** The same for a caller of the permuting scanner: it is told the options and the mistakes as meant and left with the
      operands and what follows the terminator. */
  method ScanLine(cfg: Config, argv: array<string>, ghost us: seq<Use>, ghost end: Ending)
    returns (events: seq<Event>, optind: nat)
    requires argv.Length >= 1 && argv[1..] == Line(us, end) && AllWellFormed(cfg, us) && EndsWell(cfg, end)
    modifies argv
    ensures events == Options(MeantAll(cfg, us) + MeantEnd(cfg, end)) && optind <= argv.Length
    ensures argv[optind..] == Operands(MeantAll(cfg, us) + MeantEnd(cfg, end)) + TailOf(end)
  {
    ghost var p := Parse(cfg, false, "", argv[1..]);
    ReadBack(cfg, us, end);
    events, optind := ScanPermuting(cfg, argv);
    AfterOptions(argv[..], p.opts, Operands(p.events), p.tail);
    assert argv[..][1..] == argv[1..];
  }

  // ----- Every line is such a line -----

  /** How many letters stand before the first that takes an argument. */
  function PlainLetters(cfg: Config, text: string): (n: nat)
    ensures n <= |text| && (forall i :: 0 <= i < n ==> Plain(cfg, text[i])) && (n < |text| ==> !Plain(cfg, text[n]))
  {
    if text == "" || !Plain(cfg, text[0]) then 0 else 1 + PlainLetters(cfg, text[1..])
  }

  /** The first use on the line, or its ending. */
  datatype Item = First(use: Use) | Last(end: Ending)

  ghost predicate Explains(cfg: Config, i: Item, rest: seq<string>) {
    match i
    case First(u) => WellFormed(cfg, u) && Written(u) <= rest
    case Last(end) => EndsWell(cfg, end) && WrittenEnd(end) == rest
  }

  /** The last letter of a short element that takes an argument. */
  lemma ExplainLetter(cfg: Config, letters: string, c: char, rest: seq<string>) returns (i: Item)
    requires rest != [] && rest[0] == "-" + (letters + [c]) && ShortText(cfg, letters, [c]) && !Plain(cfg, c)
    ensures Explains(cfg, i, rest)
  {
    if ArityOf(cfg.optstring, c).Optional? {
      i := First(Bare(letters, c));
      assert Written(i.use) == [rest[0]];
    } else if |rest| > 1 {
      i := First(Separate(letters, c, rest[1]));
      assert Written(i.use) == [rest[0], rest[1]];
    } else {
      i := Last(MissingShort(letters, c));
      assert WrittenEnd(i.end) == [rest[0]];
    }
  }

  lemma SplitShort(cfg: Config, text: string) returns (letters: string, last: string)
    requires !SingleDash(cfg) && text != "" && (text[0] == '-' ==> cfg.longopts.None? && |text| > 1)
    ensures text == letters + last && ShortText(cfg, letters, last) && (last != "" ==> !Plain(cfg, last[0]))
  {
    var n := PlainLetters(cfg, text);
    letters, last := text[..n], text[n..];
    assert letters + last == text;
  }

  lemma ExplainShort(cfg: Config, rest: seq<string>) returns (i: Item)
    requires !SingleDash(cfg) && rest != [] && rest[0] != "--" && !IsOperand(rest[0])
    requires cfg.longopts.Some? ==> rest[0][1] != '-'
    ensures Explains(cfg, i, rest)
  {
    var letters, last := SplitShort(cfg, rest[0][1..]);
    assert rest[0] == "-" + (letters + last);
    if last == "" {
      assert letters + last == letters;
      i := First(Cluster(letters));
      assert Written(i.use) == [rest[0]];
    } else if |last| == 1 {
      assert last == [last[0]];
      i := ExplainLetter(cfg, letters, last[0], rest);
    } else {
      assert last == [last[0]] + last[1..];
      i := First(Attached(letters, last[0], last[1..]));
      assert Written(i.use) == [rest[0]];
    }
  }

  /** A long option that was found, with or without an argument. */
  lemma ExplainFound(cfg: Config, text: string, k: nat, rest: seq<string>) returns (i: Item)
    requires cfg.longopts.Some? && rest != [] && rest[0] == "--" + text && text != ""
    requires IsLongMatch(cfg.longopts.value, LongName(text), Found(k))
    ensures Explains(cfg, i, rest)
  {
    var p, name := cfg.longopts.value[k], LongName(text);
    match IndexOf(text, '=')
    case Some(at) =>
      var arg := text[at + 1..];
      assert text == name + "=" + arg;
      i := First(if p.hasArg != 0 then LongEquals(false, name, k, arg) else NeedlessArg(false, name, k, arg));
      assert Written(i.use) == [rest[0]];
    case None =>
      if p.hasArg != 1 {
        i := First(LongBare(false, name, k));
        assert Written(i.use) == [rest[0]];
      } else if |rest| > 1 {
        i := First(LongSeparate(false, name, k, rest[1]));
        assert Written(i.use) == [rest[0], rest[1]];
      } else {
        i := Last(MissingLong(false, name, k));
        assert WrittenEnd(i.end) == [rest[0]];
      }
  }

  lemma ExplainLong(cfg: Config, rest: seq<string>) returns (i: Item)
    requires cfg.longopts.Some? && rest != [] && |rest[0]| > 2 && rest[0][..2] == "--"
    ensures Explains(cfg, i, rest)
  {
    var text := rest[0][2..];
    assert rest[0] == "--" + text;
    match LongLookup(cfg.longopts.value, LongName(text))
    case NoMatch =>
      i := First(UnknownLong(false, text));
      assert Written(i.use) == [rest[0]];
    case Ambiguous =>
      i := First(AmbiguousLong(false, text));
      assert Written(i.use) == [rest[0]];
    case Found(k) =>
      i := ExplainFound(cfg, text, k, rest);
  }

  /** Outside long-only mode every command line is written by some uses and an ending, so that what it means is settled for
      every line. */
  lemma {:induction false} EveryLine(cfg: Config, rest: seq<string>) returns (us: seq<Use>, end: Ending)
    requires !SingleDash(cfg)
    ensures AllWellFormed(cfg, us) && EndsWell(cfg, end) && Line(us, end) == rest
    decreases |rest|
  {
    var i: Item;
    if rest == [] {
      i := Last(Open);
    } else if rest[0] == "--" {
      assert rest == ["--"] + rest[1..];
      i := Last(Closed(rest[1..]));
    } else if IsOperand(rest[0]) {
      i := First(Word(rest[0]));
    } else if cfg.longopts.Some? && rest[0][1] == '-' {
      i := ExplainLong(cfg, rest);
    } else {
      i := ExplainShort(cfg, rest);
    }
    match i
    case Last(e) =>
      us, end := [], e;
    case First(u) =>
      var more := rest[|Written(u)|..];
      us, end := EveryLine(cfg, more);
      assert rest == Written(u) + more;
      assert ([u] + us)[1..] == us;
      Join(Written(u), WrittenAll(us), WrittenEnd(end));
      us := [u] + us;
  }

  // ----- What may be reported -----

  predicate ArgumentFits(arity: Arity, optarg: Option<string>) {
    match arity
    case Unknown => false
    case NoArgument => optarg.None?
    case Required => optarg.Some?
    case Optional => optarg != Some("")
  }

  /** A report that agrees with the caller's description of its options: a mistake; or a letter of the option string, with an
      argument as it says; or a long option of the table, with an argument as it says. */
  ghost predicate Legitimate(cfg: Config, e: Event) {
    match e
    case Eof => false
    case Operand(arg) => arg == "-" || arg == "" || arg[0] != '-'
    case Opt(code, optarg, None) =>
      || e == MISTAKE || e == Missing(cfg)
      || exists c :: c in cfg.optstring && c != ':' && code == c as int && ArgumentFits(ArityOf(cfg.optstring, c), optarg)
    case Opt(code, optarg, Some(i)) =>
      && cfg.longopts.Some? && i < |cfg.longopts.value| && code == LongCode(cfg, i)
      && (optarg.Some? ==> cfg.longopts.value[i].hasArg != 0) && (optarg.None? ==> cfg.longopts.value[i].hasArg != 1)
  }

  lemma DecodeLegitimate(cfg: Config, next: string, rest: seq<string>)
    requires next != "" && Consistent(next, rest)
    ensures Legitimate(cfg, Decode(cfg, next, rest).event)
  {
    assert next[0] in cfg.optstring || ArityOf(cfg.optstring, next[0]).Unknown?;
  }

  /** Whatever the elements are, and in every mode, only legitimate reports are made. */
  lemma {:induction false} Reported(cfg: Config, strict: bool, next: string, rest: seq<string>)
    requires Consistent(next, rest)
    ensures forall e :: e in Parse(cfg, strict, next, rest).events ==> Legitimate(cfg, e)
    decreases |rest|, if next != "" then |next| else if rest == [] then 0 else |rest[0]|
  {
    if next != "" {
      var st := Decode(cfg, next, rest);
      DecodeLegitimate(cfg, next, rest);
      Reported(cfg, strict, st.next, rest[st.used..]);
    } else if rest != [] && rest[0] != "--" {
      if !IsOperand(rest[0]) {
        Reported(cfg, strict, Punctuated(cfg, rest[0]), rest);
      } else if !strict {
        Reported(cfg, strict, "", rest[1..]);
      }
    }
  }

  /** How the option string says whether its letters take arguments: two colons, one, or none behind the letter. */
  lemma ArityWritten(front: string, c: char, behind: string)
    requires c !in front && c != ':'
    ensures var arity := ArityOf(front + [c] + behind, c);
      && (arity == Optional <==> "::" <= behind) && (arity == Required <==> ":" <= behind && !("::" <= behind))
      && (arity == NoArgument <==> !(":" <= behind))
  {
    var s := front + [c] + behind;
    var k := IndexOf(s, c).value;
    assert s[|front|] == c;
    assert k == |front|;
    assert |behind| > 0 ==> s[k + 1] == behind[0];
    assert |behind| > 1 ==> s[k + 2] == behind[1];
  }
}
