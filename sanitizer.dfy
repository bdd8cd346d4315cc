/**
 * The field sanitiser (`Formatter#scrub`): markup delimiters become entities and line breaks are
 * dropped, so that a value can neither open markup nor end a record early.
 */
module Sanitizer {

  /** The characters that must not survive into a field. */
  predicate IsUnsafe(c: char) { c == '<' || c == '>' || c == '\n' || c == '\r' }

  /** Free of every unsafe character. */
  predicate Clean(s: string) { forall i :: 0 <= i < |s| ==> !IsUnsafe(s[i]) }

  /** What one input character turns into. */
  function ScrubChar(c: char): string
  {
    if c == '<' then "&lt;"
    else if c == '>' then "&gt;"
    else if c == '\n' || c == '\r' then ""
    else [c]
  }

  /** The sanitised text: total, and never contains `<`, `>`, a newline or a carriage return. */
  function Scrub(s: string): (r: string)
    ensures Clean(r)
  {
    if |s| == 0 then "" else ScrubChar(s[0]) + Scrub(s[1..])
  }

  /** Scrubbing works piece by piece: no replacement depends on its neighbours. */
  lemma {:induction false} ScrubAppend(a: string, b: string)
    ensures Scrub(a + b) == Scrub(a) + Scrub(b)
  {
    if |a| == 0 {
      assert a + b == b;
    } else {
      assert (a + b)[1..] == a[1..] + b;
      ScrubAppend(a[1..], b);
    }
  }

  /** Text already free of the four characters passes through unchanged. */
  lemma {:induction false} ScrubCleanIdentity(s: string)
    requires Clean(s)
    ensures Scrub(s) == s
  {
    if |s| > 0 {
      ScrubCleanIdentity(s[1..]);
      assert s == [s[0]] + s[1..];
    }
  }

  /** Scrubbing twice is scrubbing once. */
  lemma ScrubIdempotent(s: string)
    ensures Scrub(Scrub(s)) == Scrub(s)
  {
    ScrubCleanIdentity(Scrub(s));
  }

  /** Replaces every `c` in `s` by `rep`: one replacement pass over a single literal character. */
  function Replace(s: string, c: char, rep: string): (r: string)
    ensures c !in rep ==> c !in r
  {
    if |s| == 0 then ""
    else (if s[0] == c then rep else [s[0]]) + Replace(s[1..], c, rep)
  }

  lemma {:induction false} ReplaceAppend(a: string, b: string, c: char, rep: string)
    ensures Replace(a + b, c, rep) == Replace(a, c, rep) + Replace(b, c, rep)
  {
    if |a| == 0 {
      assert a + b == b;
    } else {
      assert (a + b)[1..] == a[1..] + b;
      ReplaceAppend(a[1..], b, c, rep);
    }
  }

  lemma ReplaceAbsent(s: string, c: char, rep: string)
    requires c !in s
    ensures Replace(s, c, rep) == s
    decreases |s|
  {
    if |s| > 0 {
      ReplaceAbsent(s[1..], c, rep);
      assert s == [s[0]] + s[1..];
    }
  }

  /** Entities first, then line breaks: four replacement passes in this order. */
  function EscapeThenStrip(s: string): string
  {
    Replace(Replace(Replace(Replace(s, '<', "&lt;"), '>', "&gt;"), '\n', ""), '\r', "")
  }

  /** Line breaks first, then entities: the same four passes in the opposite order. */
  function StripThenEscape(s: string): string
  {
    Replace(Replace(Replace(Replace(s, '\r', ""), '\n', ""), '>', "&gt;"), '<', "&lt;")
  }

  /** One pass of each order applied to the first character and the rest. */
  lemma PassesSplit(s: string)
    requires |s| > 0
    ensures EscapeThenStrip(s) == EscapeThenStrip([s[0]]) + EscapeThenStrip(s[1..])
    ensures StripThenEscape(s) == StripThenEscape([s[0]]) + StripThenEscape(s[1..])
  {
    var h, t := [s[0]], s[1..];
    assert s == h + t;
    var a1 := Replace(h, '<', "&lt;");
    var b1 := Replace(t, '<', "&lt;");
    ReplaceAppend(h, t, '<', "&lt;");
    ReplaceAppend(a1, b1, '>', "&gt;");
    var a2 := Replace(a1, '>', "&gt;");
    var b2 := Replace(b1, '>', "&gt;");
    ReplaceAppend(a2, b2, '\n', "");
    ReplaceAppend(Replace(a2, '\n', ""), Replace(b2, '\n', ""), '\r', "");
    var c1 := Replace(h, '\r', "");
    var d1 := Replace(t, '\r', "");
    ReplaceAppend(h, t, '\r', "");
    ReplaceAppend(c1, d1, '\n', "");
    var c2 := Replace(c1, '\n', "");
    var d2 := Replace(d1, '\n', "");
    ReplaceAppend(c2, d2, '>', "&gt;");
    ReplaceAppend(Replace(c2, '>', "&gt;"), Replace(d2, '>', "&gt;"), '<', "&lt;");
  }

  lemma ReplaceOne(c: char, x: char, rep: string)
    ensures Replace([c], x, rep) == if c == x then rep else [c]
  {
    assert [c][1..] == [];
  }

  /** The entity texts hold no character that another pass rewrites. */
  lemma EntitiesPlain()
    ensures '>' !in "&lt;" && '\n' !in "&lt;" && '\r' !in "&lt;"
    ensures '<' !in "&gt;" && '\n' !in "&gt;" && '\r' !in "&gt;"
  {
    var lt, gt := "&lt;", "&gt;";
    assert forall i :: 0 <= i < 4 ==> lt[i] in {'&', 'l', 't', ';'};
    assert forall i :: 0 <= i < 4 ==> gt[i] in {'&', 'g', 't', ';'};
  }

  /** On a single character the entity-first passes produce what ScrubChar produces. */
  lemma EscapeThenStripOnChar(c: char)
    ensures EscapeThenStrip([c]) == ScrubChar(c)
  {
    EntitiesPlain();
    ReplaceOne(c, '<', "&lt;");
    if c == '<' {
      ReplaceAbsent("&lt;", '>', "&gt;");
      ReplaceAbsent("&lt;", '\n', "");
      ReplaceAbsent("&lt;", '\r', "");
    } else {
      ReplaceOne(c, '>', "&gt;");
      if c == '>' {
        ReplaceAbsent("&gt;", '\n', "");
        ReplaceAbsent("&gt;", '\r', "");
      } else {
        ReplaceOne(c, '\n', "");
        if c == '\n' {
          assert Replace("", '\r', "") == "";
        } else {
          ReplaceOne(c, '\r', "");
        }
      }
    }
  }

  /** On a single character the line-break-first passes produce what ScrubChar produces. */
  lemma StripThenEscapeOnChar(c: char)
    ensures StripThenEscape([c]) == ScrubChar(c)
  {
    ReplaceOne(c, '\r', "");
    if c == '\r' {
      assert Replace("", '\n', "") == "";
      assert Replace("", '>', "&gt;") == "";
      assert Replace("", '<', "&lt;") == "";
    } else {
      ReplaceOne(c, '\n', "");
      if c == '\n' {
        assert Replace("", '>', "&gt;") == "";
        assert Replace("", '<', "&lt;") == "";
      } else {
        ReplaceOne(c, '>', "&gt;");
        if c == '>' {
          EntitiesPlain();
          ReplaceAbsent("&gt;", '<', "&lt;");
        } else {
          ReplaceOne(c, '<', "&lt;");
        }
      }
    }
  }

  /**
   * The character-wise definition agrees with a chain of four replacement passes, whichever order the
   * passes run in: no replacement text contains a character that a later pass rewrites.
   */
  lemma {:induction false} ScrubIsPassChain(s: string)
    ensures Scrub(s) == EscapeThenStrip(s)
    ensures Scrub(s) == StripThenEscape(s)
  {
    if |s| > 0 {
      PassesSplit(s);
      EscapeThenStripOnChar(s[0]);
      StripThenEscapeOnChar(s[0]);
      ScrubIsPassChain(s[1..]);
    }
  }

  /** Decodes the two entities that Scrub introduces; every other character is copied. */
  function Unescape(t: string): string
  {
    if |t| == 0 then ""
    else if |t| >= 4 && t[..4] == "&lt;" then "<" + Unescape(t[4..])
    else if |t| >= 4 && t[..4] == "&gt;" then ">" + Unescape(t[4..])
    else [t[0]] + Unescape(t[1..])
  }

  /** `s` with its newlines and carriage returns deleted and nothing else changed. */
  function DropLineBreaks(s: string): string
  {
    if |s| == 0 then ""
    else (if s[0] == '\n' || s[0] == '\r' then "" else [s[0]]) + DropLineBreaks(s[1..])
  }

  /**
   * Each `<` and `>` becomes exactly one entity and only line breaks are lost: decoding the
   * entities of a scrubbed text without ampersands gives the text back minus its line breaks.
   */
  lemma {:induction false} UnescapeScrub(s: string)
    requires '&' !in s
    ensures Unescape(Scrub(s)) == DropLineBreaks(s)
  {
    if |s| > 0 {
      var c, rest := s[0], Scrub(s[1..]);
      UnescapeScrub(s[1..]);
      if c == '<' {
        assert ("&lt;" + rest)[..4] == "&lt;" && ("&lt;" + rest)[4..] == rest;
      } else if c == '>' {
        assert ("&gt;" + rest)[..4] == "&gt;" && ("&gt;" + rest)[4..] == rest;
      } else if c == '\n' || c == '\r' {
        assert ScrubChar(c) + rest == rest;
      } else {
        assert ([c] + rest)[0] == c && ([c] + rest)[1..] == rest;
      }
    }
  }
}
