/** HTML escaping as `cgi.escape` performs it: `&`, `<` and `>` become entities, and
    with `quote` also the double quote. */
module Html {
  import opened Text

  /** `cgi.escape(s, quote)`: four successive `str.replace` calls, `&` first. Because
      `&` goes first, the result is the same as escaping character by character. */
  function Escape(s: string, quote: bool): (r: string)
    ensures r == EscapeEach(s, quote)
  {
    EscapeIsPerChar(s, quote);
    Replaced(s, quote)
  }

  function Replaced(s: string, quote: bool): string {
    var amp := ReplaceChar(s, '&', "&amp;");
    var lt := ReplaceChar(amp, '<', "&lt;");
    var gt := ReplaceChar(lt, '>', "&gt;");
    if quote then ReplaceChar(gt, '"', "&quot;") else gt
  }

  /** What escaping turns one character into. */
  function EscapeChar(c: char, quote: bool): string {
    if c == '&' then "&amp;"
    else if c == '<' then "&lt;"
    else if c == '>' then "&gt;"
    else if quote && c == '"' then "&quot;"
    else [c]
  }

  /** Escaping one character at a time; no `<` or `>` is left, nor a double quote
      when `quote` is set. */
  function EscapeEach(s: string, quote: bool): (r: string)
    ensures '<' !in r && '>' !in r
    ensures quote ==> '"' !in r
  {
    if s == [] then [] else EscapeChar(s[0], quote) + EscapeEach(s[1..], quote)
  }

  /** Reads the entities `Escape` writes back as the characters they stand for. */
  function Unescape(s: string): string
    decreases |s|
  {
    if s == [] then []
    else if StartsWith(s, "&amp;") then "&" + Unescape(s[5..])
    else if StartsWith(s, "&lt;") then "<" + Unescape(s[4..])
    else if StartsWith(s, "&gt;") then ">" + Unescape(s[4..])
    else if StartsWith(s, "&quot;") then "\"" + Unescape(s[6..])
    else [s[0]] + Unescape(s[1..])
  }

  /** A `replace` step on a text that starts with the part `x` already escaped and
      free of the character being replaced. */
  lemma ReplaceKeepsHead(x: string, t: string, c: char, repl: string)
    requires c !in x
    ensures ReplaceChar(x + t, c, repl) == x + ReplaceChar(t, c, repl)
  {
    ReplaceCharAppend(x, t, c, repl);
    ReplaceAbsent(x, c, repl);
  }

  lemma ReplaceCons(c: char, t: string, x: char, repl: string)
    ensures ReplaceChar([c] + t, x, repl) == (if c == x then repl else [c]) + ReplaceChar(t, x, repl)
  {
    assert ([c] + t)[0] == c;
    assert ([c] + t)[1..] == t;
  }

  lemma ReplacedCons(c: char, t: string, quote: bool)
    ensures Replaced([c] + t, quote) == EscapeChar(c, quote) + Replaced(t, quote)
  {
    var ampT := ReplaceChar(t, '&', "&amp;");
    var ltT := ReplaceChar(ampT, '<', "&lt;");
    var gtT := ReplaceChar(ltT, '>', "&gt;");
    ReplaceCons(c, t, '&', "&amp;");
    var h1 := if c == '&' then "&amp;" else [c];
    if c == '&' {
      ReplaceKeepsHead(h1, ampT, '<', "&lt;");
      ReplaceKeepsHead(h1, ltT, '>', "&gt;");
      ReplaceKeepsHead(h1, gtT, '"', "&quot;");
    } else {
      ReplaceCons(c, ampT, '<', "&lt;");
      var h2 := if c == '<' then "&lt;" else [c];
      if c == '<' {
        ReplaceKeepsHead(h2, ltT, '>', "&gt;");
        ReplaceKeepsHead(h2, gtT, '"', "&quot;");
      } else {
        ReplaceCons(c, ltT, '>', "&gt;");
        if c == '>' {
          ReplaceKeepsHead("&gt;", gtT, '"', "&quot;");
        } else {
          ReplaceCons(c, gtT, '"', "&quot;");
        }
      }
    }
  }

  lemma {:induction false} EscapeIsPerChar(s: string, quote: bool)
    ensures Replaced(s, quote) == EscapeEach(s, quote)
  {
    if s != [] {
      ReplacedCons(s[0], s[1..], quote);
      assert [s[0]] + s[1..] == s;
      EscapeIsPerChar(s[1..], quote);
    }
  }

  lemma UnescapeHead(c: char, rest: string, quote: bool)
    ensures Unescape(EscapeChar(c, quote) + rest) == [c] + Unescape(rest)
  {
    var s := EscapeChar(c, quote) + rest;
    if c == '&' {
      assert s[..5] == "&amp;" && s[5..] == rest;
    } else if c == '<' {
      assert s[1] == 'l';
      assert !StartsWith(s, "&amp;") by { assert |s| < 5 || s[..5][1] == s[1]; }
      assert s[..4] == "&lt;" && s[4..] == rest;
    } else if c == '>' {
      assert s[1] == 'g';
      assert !StartsWith(s, "&amp;") by { assert |s| < 5 || s[..5][1] == s[1]; }
      assert !StartsWith(s, "&lt;") by { assert |s| < 4 || s[..4][1] == s[1]; }
      assert s[..4] == "&gt;" && s[4..] == rest;
    } else if quote && c == '"' {
      assert s[1] == 'q';
      assert !StartsWith(s, "&amp;") by { assert |s| < 5 || s[..5][1] == s[1]; }
      assert !StartsWith(s, "&lt;") by { assert |s| < 4 || s[..4][1] == s[1]; }
      assert !StartsWith(s, "&gt;") by { assert |s| < 4 || s[..4][1] == s[1]; }
      assert s[..6] == "&quot;" && s[6..] == rest;
    } else {
      assert s[0] == c && s[1..] == rest;
      assert !StartsWith(s, "&amp;") by { assert |s| < 5 || s[..5][0] == s[0]; }
      assert !StartsWith(s, "&lt;") by { assert |s| < 4 || s[..4][0] == s[0]; }
      assert !StartsWith(s, "&gt;") by { assert |s| < 4 || s[..4][0] == s[0]; }
      assert !StartsWith(s, "&quot;") by { assert |s| < 6 || s[..6][0] == s[0]; }
    }
  }

  /** Escaping loses nothing: the entities read back give the original text. */
  lemma {:induction false} UnescapeEscape(s: string, quote: bool)
    ensures Unescape(Escape(s, quote)) == s
  {
    if s != [] {
      UnescapeHead(s[0], EscapeEach(s[1..], quote), quote);
      UnescapeEscape(s[1..], quote);
    }
  }

  lemma EscapeInjective(a: string, b: string, quote: bool)
    ensures Escape(a, quote) == Escape(b, quote) <==> a == b
  {
    UnescapeEscape(a, quote);
    UnescapeEscape(b, quote);
  }
}
