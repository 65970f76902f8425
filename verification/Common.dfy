/** Small types shared by the models. */
module Common {

  datatype Option<+T> = None | Some(value: T)

  /** One unsigned eight-bit character. */
  type byte = b: int | 0 <= b < 256

  const LF: byte := 10
  const CR: byte := 13
  const SPACE: byte := 32

  predicate IsBreak(b: byte) { b == LF || b == CR }

  /** `t` stands at place `i` of `s`. */
  predicate OccursAt<T(==)>(s: seq<T>, t: seq<T>, i: nat) {
    i + |t| <= |s| && s[i..i + |t|] == t
  }

  /** Length of a C string. */
  function Strlen(s: seq<byte>): (n: nat)
    requires 0 in s
    ensures n < |s| && s[n] == 0 && 0 !in s[..n]
  {
    if s[0] == 0 then 0 else 1 + Strlen(s[1..])
  }

  lemma Join<T>(a: seq<T>, b: seq<T>, c: seq<T>)
    ensures (a + b) + c == a + (b + c)
  {
  }

  /** Concatenation of a list of sequences. */
  function Flatten<T>(ss: seq<seq<T>>): seq<T> {
    if ss == [] then [] else ss[0] + Flatten(ss[1..])
  }

  /** The members of `s` that satisfy `keep`, in order. */
  function Filter<T>(keep: T -> bool, s: seq<T>): seq<T> {
    if s == [] then [] else if keep(s[0]) then [s[0]] + Filter(keep, s[1..]) else Filter(keep, s[1..])
  }

  lemma {:induction false} FilterAppend<T>(keep: T -> bool, s: seq<T>, t: seq<T>)
    ensures Filter(keep, s + t) == Filter(keep, s) + Filter(keep, t)
  {
    if s == [] {
      assert s + t == t;
    } else {
      FilterAppend(keep, s[1..], t);
      assert (s + t)[1..] == s[1..] + t;
    }
  }
}
