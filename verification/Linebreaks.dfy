/** Adapting the line breaks of a disclaimer to those of the message it goes into. */
module Linebreaks {
  import opened Common
  import opened StringReplace

  function ToCrlf(s: string): string { ReplaceUpTo(s, "\n", "\r\n", None) }

  function ToLf(s: string): string { ReplaceUpTo(s, "\r\n", "\n", None) }

  /** The text with the breaks that `lb` asks for: CRLF unless it starts with LF. Text that has a CR counts as CRLF
      text, and text without one as LF text; such text is not changed again. */
  function Adapted(s: string, lb: string): string {
    if lb != "" && lb[0] == '\n' then if '\r' in s then ToLf(s) else s
    else if '\r' in s then s else ToCrlf(s)
  }

  /** The adapter, for a linebreak that is empty or starts with CR or LF. */
  method AdaptLinebreak(s: string, lb: string) returns (r: string)
    requires lb == "" || lb[0] == '\r' || lb[0] == '\n'
    ensures r == Adapted(s, lb)
  {
    var wanted := if lb == "" then "\r\n" else lb;
    if wanted[0] == '\r' {
      if '\r' in s {
        return s;
      }
      var q := Request(s, "\n", "\r\n", None, None, 0, false);
      ReplacedUpTo(q);
      r := Replace(q);
    } else {
      if '\r' !in s {
        return s;
      }
      var q := Request(s, "\r\n", "\n", None, None, 0, false);
      ReplacedUpTo(q);
      r := Replace(q);
    }
  }

  /** CR and LF stand only in pairs. */
  predicate OnlyPairs(s: string) {
    if s == "" then true
    else if "\r\n" <= s then OnlyPairs(s[2..])
    else s[0] != '\r' && s[0] != '\n' && OnlyPairs(s[1..])
  }

  /** No CRLF pair stands anywhere. */
  predicate NoPair(s: string) {
    s == "" || (!("\r\n" <= s) && NoPair(s[1..]))
  }

  lemma {:induction false} LfCrlfLf(s: string)
    requires '\r' !in s
    ensures ToLf(ToCrlf(s)) == s && OnlyPairs(ToCrlf(s))
    ensures '\r' in ToCrlf(s) || ToCrlf(s) == s
  {
    if s != "" {
      var t := s[1..];
      LfCrlfLf(t);
      var u := ToCrlf(t);
      ReplaceStep(s, "\n", "\r\n");
      if s[0] == '\n' {
        assert "\n" <= s && ToCrlf(s) == "\r\n" + u;
        var w := "\r\n" + u;
        ReplaceStep(w, "\r\n", "\n");
        assert "\r\n" <= w && w[2..] == u && w[0] == '\r';
      } else {
        assert !("\n" <= s) && ToCrlf(s) == [s[0]] + u;
        var w := [s[0]] + u;
        ReplaceStep(w, "\r\n", "\n");
        assert !("\r\n" <= w) && w[1..] == u;
      }
    }
  }

  lemma {:induction false} CrlfLfCrlf(s: string)
    requires OnlyPairs(s)
    ensures '\r' !in ToLf(s) && ToCrlf(ToLf(s)) == s
    ensures '\r' in s || ToLf(s) == s
  {
    if s == "" {
    } else if "\r\n" <= s {
      var u := ToLf(s[2..]);
      CrlfLfCrlf(s[2..]);
      var w := "\n" + u;
      ReplaceStep(s, "\r\n", "\n");
      ReplaceStep(w, "\n", "\r\n");
      assert ToLf(s) == w && "\n" <= w && w[1..] == u;
      assert s == "\r\n" + s[2..] && s[0] == '\r';
    } else {
      var u := ToLf(s[1..]);
      CrlfLfCrlf(s[1..]);
      var w := [s[0]] + u;
      ReplaceStep(s, "\r\n", "\n");
      ReplaceStep(w, "\n", "\r\n");
      assert w[0] == s[0] != '\n' && w[1..] == u;
      assert ToLf(s) == w && !("\n" <= w);
    }
  }

  /** Turning CRLF into LF shortens the text unless no pair stands in it. */
  lemma {:induction false} ToLfShortens(s: string)
    ensures if NoPair(s) then ToLf(s) == s else |ToLf(s)| < |s|
    ensures |ToLf(s)| <= |s|
  {
    if s != "" {
      ReplaceStep(s, "\r\n", "\n");
      ToLfShortens(if "\r\n" <= s then s[2..] else s[1..]);
    }
  }

  /** LF text survives the way to CRLF and back; so does text with a CR but no CRLF pair, which is never touched, and
      no other text. */
  lemma LfRoundTrip(s: string)
    ensures Adapted(Adapted(s, "\r\n"), "\n") == s <==> '\r' !in s || NoPair(s)
  {
    if '\r' in s {
      ToLfShortens(s);
    } else {
      LfCrlfLf(s);
    }
  }

  /** CRLF text survives the way to LF and back; so does text whose CRs are all stray, which is never touched, and no
      other text. */
  lemma CrlfRoundTrip(s: string)
    ensures Adapted(Adapted(s, "\n"), "\r\n") == s <==> OnlyPairs(s) || ('\r' in s && NoPair(s))
  {
    ToLfShortens(s);
    if OnlyPairs(s) {
      CrlfLfCrlf(s);
    } else if '\r' !in s {
      LfCrlfLf(s);
    } else if NoPair(s) {
    } else if '\r' !in ToLf(s) {
      LfCrlfLf(ToLf(s));
    }
  }

  /** A CRLF text comes back from CRLF as LF text, and an LF text from LF as CRLF text. */
  lemma LostBreaks()
    ensures Adapted(Adapted("\r\n", "\r\n"), "\n") != "\r\n"
    ensures Adapted(Adapted("\n", "\n"), "\r\n") != "\n"
  {
    LfRoundTrip("\r\n");
    CrlfRoundTrip("\n");
  }
}
