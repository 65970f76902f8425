/** What one step of the option scanner does with the element it stands on: short clusters,
    option arguments, long options and their abbreviations. Pure in the unscanned elements. */
module OptionElements {
  import opened Common

  /** `hasArg` is 0 for no argument, 1 for a required one; any other value means optional.
      With `hasFlag` the value goes to a caller's variable and the call returns 0. */
  datatype LongOption = LongOption(name: string, hasArg: int, hasFlag: bool, val: int)

  /** The caller's description of its options. `optstring` carries no ordering prefix. */
  datatype Config = Config(optstring: string, longopts: Option<seq<LongOption>>, longOnly: bool)

  /** What one call reports: the end, an operand (the C interface returns 1 for it), or an option with its code. */
  datatype Event =
    | Eof
    | Operand(arg: string)
    | Opt(code: int, optarg: Option<string>, longind: Option<nat>)

  /** The first place of `c` in `s`. */
  function IndexOf(s: string, c: char): (r: Option<nat>)
    ensures r.None? <==> c !in s
    ensures r.Some? ==> r.value < |s| && s[r.value] == c && c !in s[..r.value]
  {
    if s == "" then None
    else if s[0] == c then Some(0)
    else
      var r := IndexOf(s[1..], c);
      if r.None? then None
      else
        assert s[..r.value + 1] == [s[0]] + s[1..][..r.value];
        Some(r.value + 1)
  }

  /** An element the scanner does not take for an option: no leading dash, or a lone dash. */
  predicate IsOperand(element: string) {
    element == "" || element[0] != '-' || |element| == 1
  }

  /** Text of a fresh option element after its punctuation. */
  function Punctuated(cfg: Config, element: string): (next: string)
    requires !IsOperand(element) && element != "--"
    ensures next != "" && |next| < |element| && next == element[|element| - |next|..]
  {
    if cfg.longopts.Some? && element[1] == '-' then element[2..] else element[1..]
  }

  datatype LongMatch = NoMatch | Ambiguous | Found(index: nat)

  /** `name` abbreviates (or is) the name of option `i`. */
  predicate Abbreviates(opts: seq<LongOption>, name: string, i: nat)
    requires i < |opts|
  {
    name <= opts[i].name
  }

  /** What looking a long name up must answer: the first option of exactly that name, else the only
      option the name abbreviates, else ambiguity or nothing. */
  ghost predicate IsLongMatch(opts: seq<LongOption>, name: string, m: LongMatch) {
    match m
    case NoMatch => forall i :: 0 <= i < |opts| ==> !Abbreviates(opts, name, i)
    case Found(k) =>
      && k < |opts| && Abbreviates(opts, name, k)
      && if opts[k].name == name then
           forall i :: 0 <= i < k ==> opts[i].name != name
         else
           forall i :: 0 <= i < |opts| && i != k ==> !Abbreviates(opts, name, i)
    case Ambiguous =>
      && (forall i :: 0 <= i < |opts| ==> opts[i].name != name)
      && exists i, j :: 0 <= i < j < |opts| && Abbreviates(opts, name, i) && Abbreviates(opts, name, j)
  }

  /** The lookup has exactly one answer. */
  lemma LongMatchUnique(opts: seq<LongOption>, name: string, m: LongMatch, m': LongMatch)
    requires IsLongMatch(opts, name, m) && IsLongMatch(opts, name, m')
    ensures m == m'
  {
  }

  /** The lookup loop over the option table. */
  method FindLong(opts: seq<LongOption>, name: string) returns (m: LongMatch)
    ensures IsLongMatch(opts, name, m)
  {
    var found: Option<nat> := None;
    var ambig := false;
    for i := 0 to |opts|
      invariant forall k :: 0 <= k < i ==> opts[k].name != name
      invariant found.None? ==> !ambig && forall k :: 0 <= k < i ==> !Abbreviates(opts, name, k)
      invariant found.Some? ==> found.value < i && Abbreviates(opts, name, found.value)
      invariant found.Some? && !ambig ==> forall k :: 0 <= k < i && k != found.value ==> !Abbreviates(opts, name, k)
      invariant ambig ==> exists j :: found.value < j < i && Abbreviates(opts, name, j)
    {
      if name <= opts[i].name {
        if |name| == |opts[i].name| {
          return Found(i);
        } else if found.None? {
          found := Some(i);
        } else {
          assert Abbreviates(opts, name, i);
          ambig := true;
        }
      }
    }
    m := if ambig then Ambiguous else if found.Some? then Found(found.value) else NoMatch;
  }

  /** The lookup as a function of the table. */
  ghost function LongLookup(opts: seq<LongOption>, name: string): (m: LongMatch)
    ensures IsLongMatch(opts, name, m)
  {
    LongMatchExists(opts, name);
    var m :| IsLongMatch(opts, name, m); m
  }

  lemma LongMatchExists(opts: seq<LongOption>, name: string)
    ensures exists m :: IsLongMatch(opts, name, m)
  {
    if k :| 0 <= k < |opts| && opts[k].name == name {
      var i := FirstNamed(opts, name, k);
      assert IsLongMatch(opts, name, Found(i));
    } else if i, j :| 0 <= i < j < |opts| && Abbreviates(opts, name, i) && Abbreviates(opts, name, j) {
      assert IsLongMatch(opts, name, Ambiguous);
    } else if k :| 0 <= k < |opts| && Abbreviates(opts, name, k) {
      forall i | 0 <= i < |opts| && i != k ensures !Abbreviates(opts, name, i) {
        assert i < k || k < i;
      }
      assert IsLongMatch(opts, name, Found(k));
    } else {
      assert IsLongMatch(opts, name, NoMatch);
    }
  }

  lemma FirstNamed(opts: seq<LongOption>, name: string, k: nat) returns (i: nat)
    requires k < |opts| && opts[k].name == name
    ensures i <= k && opts[i].name == name && forall j :: 0 <= j < i ==> opts[j].name != name
  {
    i := 0;
    while opts[i].name != name
      invariant i <= k && forall j :: 0 <= j < i ==> opts[j].name != name
      decreases k - i
    {
      i := i + 1;
    }
  }

  /** The unread text of the current element (none when empty) fits the unscanned elements. */
  predicate Consistent(next: string, rest: seq<string>) {
    next != "" ==> rest != [] && !IsOperand(rest[0]) && |next| < |rest[0]|
  }

  /** Outcome of decoding: the report, the text left in the element, and how many elements are done. */
  datatype Step = Step(event: Event, next: string, used: nat)

  const QUESTION := '?' as int

  /** The report for a missing option argument. */
  function MissingArgument(cfg: Config): Event {
    Opt(if cfg.optstring != "" && cfg.optstring[0] == ':' then ':' as int else QUESTION, None, None)
  }

  /** How the option string classifies a short option character. */
  datatype Arity = Unknown | NoArgument | Required | Optional

  function ArityOf(optstring: string, c: char): Arity {
    match IndexOf(optstring, c)
    case None => Unknown
    case Some(k) =>
      if c == ':' then Unknown
      else if k + 1 < |optstring| && optstring[k + 1] == ':' then
        if k + 2 < |optstring| && optstring[k + 2] == ':' then Optional else Required
      else NoArgument
  }

  /** One character of a short cluster, with its argument if it takes one. */
  function DecodeShort(cfg: Config, next: string, rest: seq<string>): Step
    requires next != "" && Consistent(next, rest)
  {
    var c, tail := next[0], next[1..];
    match ArityOf(cfg.optstring, c)
    case Unknown => Step(Opt(QUESTION, None, None), tail, if tail == "" then 1 else 0)
    case NoArgument => Step(Opt(c as int, None, None), tail, if tail == "" then 1 else 0)
    case Optional => Step(Opt(c as int, if tail == "" then None else Some(tail), None), "", 1)
    case Required =>
      if tail != "" then Step(Opt(c as int, Some(tail), None), "", 1)
      else if |rest| == 1 then Step(MissingArgument(cfg), "", 1)
      else Step(Opt(c as int, Some(rest[1]), None), "", 2)
  }

  /** The current text is looked up as a long option before it is taken as a short cluster. */
  predicate TriesLong(cfg: Config, rest: seq<string>)
    requires rest != [] && !IsOperand(rest[0])
  {
    cfg.longopts.Some?
    && (rest[0][1] == '-' || (cfg.longOnly && (|rest[0]| > 2 || IndexOf(cfg.optstring, rest[0][1]).None?)))
  }

  /** The part of `next` before an equals sign. */
  function LongName(next: string): string {
    match IndexOf(next, '=')
    case None => next
    case Some(k) => next[..k]
  }

  /** A long option that has been found, with its argument. */
  function DecodeFound(cfg: Config, index: nat, next: string, rest: seq<string>): Step
    requires next != "" && Consistent(next, rest)
    requires cfg.longopts.Some? && index < |cfg.longopts.value|
  {
    var p := cfg.longopts.value[index];
    var code := if p.hasFlag then 0 else p.val;
    match IndexOf(next, '=')
    case Some(k) =>
      if p.hasArg != 0 then Step(Opt(code, Some(next[k + 1..]), Some(index)), "", 1)
      else Step(Opt(QUESTION, None, None), "", 1)
    case None =>
      if p.hasArg == 1 then
        if |rest| == 1 then Step(MissingArgument(cfg), "", 1)
        else Step(Opt(code, Some(rest[1]), Some(index)), "", 2)
      else Step(Opt(code, None, Some(index)), "", 1)
  }

  /** Decoding of the current option element. */
  ghost function Decode(cfg: Config, next: string, rest: seq<string>): (st: Step)
    requires next != "" && Consistent(next, rest)
    ensures !st.event.Eof? && !st.event.Operand?
    ensures st.used <= |rest| && Consistent(st.next, rest[st.used..])
    ensures if st.used == 0 then st.next != "" && |st.next| < |next| else st.next == ""
  {
    if TriesLong(cfg, rest) then
      match LongLookup(cfg.longopts.value, LongName(next))
      case Ambiguous => Step(Opt(QUESTION, None, None), "", 1)
      case Found(i) => DecodeFound(cfg, i, next, rest)
      case NoMatch =>
        if !cfg.longOnly || rest[0][1] == '-' || IndexOf(cfg.optstring, next[0]).None?
        then Step(Opt(QUESTION, None, None), "", 1)
        else DecodeShort(cfg, next, rest)
    else DecodeShort(cfg, next, rest)
  }
}
