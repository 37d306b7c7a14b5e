/** `escapeHtml`: the renderer's only defence against markup in fetched text
    and in the user's own reflections. */
module Html {
  import opened Options

  /** `s.replace(/c/g, rep)`: every occurrence of the character `c` becomes `rep`. */
  function ReplaceAll(s: string, c: char, rep: string): string {
    if s == [] then [] else (if s[0] == c then rep else [s[0]]) + ReplaceAll(s[1..], c, rep)
  }

  /** `String(str).replace(/&/g, '&amp;').replace(/</g, '&lt;').replace(/>/g, '&gt;')`. */
  function Chain(s: string): string {
    ReplaceAll(ReplaceAll(ReplaceAll(s, '&', "&amp;"), '<', "&lt;"), '>', "&gt;")
  }

  /** `escapeHtml(str)`: `undefined` and `null` (here `None`) give the empty
      string; otherwise `&`, then `<`, then `>` are replaced by entities. */
  function EscapeHtml(str: Option<string>): string {
    match str
    case None => ""
    case Some(s) => Chain(s)
  }

  // ----- facts about the global replace -----

  /** A global replace of a character the string does not contain changes nothing. */
  lemma {:induction false} ReplaceAllAbsent(s: string, c: char, rep: string)
    requires c !in s
    ensures ReplaceAll(s, c, rep) == s
    decreases |s|
  {
    if s != [] {
      assert c !in s[1..];
      ReplaceAllAbsent(s[1..], c, rep);
      assert s == [s[0]] + s[1..];
    }
  }

  lemma ReplaceAllSingle(x: char, c: char, rep: string)
    ensures ReplaceAll([x], c, rep) == if x == c then rep else [x]
  {
  }

  lemma {:induction false} ReplaceAllAppend(a: string, b: string, c: char, rep: string)
    ensures ReplaceAll(a + b, c, rep) == ReplaceAll(a, c, rep) + ReplaceAll(b, c, rep)
    decreases |a|
  {
    if a == [] {
      assert a + b == b;
    } else {
      assert (a + b)[1..] == a[1..] + b;
      ReplaceAllAppend(a[1..], b, c, rep);
    }
  }

  // ----- a one-pass reference definition -----

  function EscapeChar(c: char): string {
    if c == '&' then "&amp;" else if c == '<' then "&lt;" else if c == '>' then "&gt;" else [c]
  }

  /** Escaping character by character, each character independently. */
  function EscapeEach(s: string): string {
    if s == [] then [] else EscapeChar(s[0]) + EscapeEach(s[1..])
  }

  lemma ChainAppend(a: string, b: string)
    ensures Chain(a + b) == Chain(a) + Chain(b)
  {
    ReplaceAllAppend(a, b, '&', "&amp;");
    var a1, b1 := ReplaceAll(a, '&', "&amp;"), ReplaceAll(b, '&', "&amp;");
    ReplaceAllAppend(a1, b1, '<', "&lt;");
    var a2, b2 := ReplaceAll(a1, '<', "&lt;"), ReplaceAll(b1, '<', "&lt;");
    ReplaceAllAppend(a2, b2, '>', "&gt;");
  }

  lemma ChainChar(c: char)
    ensures Chain([c]) == EscapeChar(c)
  {
    ReplaceAllSingle(c, '&', "&amp;");
    var s1 := ReplaceAll([c], '&', "&amp;");
    if c == '&' {
      ReplaceAllAbsent(s1, '<', "&lt;");
      ReplaceAllAbsent(s1, '>', "&gt;");
    } else {
      ReplaceAllSingle(c, '<', "&lt;");
      var s2 := ReplaceAll(s1, '<', "&lt;");
      if c == '<' {
        ReplaceAllAbsent(s2, '>', "&gt;");
      } else {
        ReplaceAllSingle(c, '>', "&gt;");
      }
    }
  }

  lemma {:induction false} ChainIsPerCharacter(s: string)
    ensures Chain(s) == EscapeEach(s)
    decreases |s|
  {
    if s != [] {
      assert s == [s[0]] + s[1..];
      ChainAppend([s[0]], s[1..]);
      ChainChar(s[0]);
      ChainIsPerCharacter(s[1..]);
    }
  }

  /** Because `&` is replaced first, the entities introduced by the later
      replacements are not escaped again: `escapeHtml` is the same as
      escaping each character on its own. */
  lemma EscapeIsPerCharacter(s: string)
    ensures EscapeHtml(Some(s)) == EscapeEach(s)
  {
    ChainIsPerCharacter(s);
  }

  /** Escaping character by character leaves no raw `<` or `>`, and changes
      nothing in text without `&`, `<` and `>`. */
  lemma {:induction false} EscapeEachSafe(s: string)
    ensures '<' !in EscapeEach(s) && '>' !in EscapeEach(s)
    ensures '&' !in s && '<' !in s && '>' !in s ==> EscapeEach(s) == s
    decreases |s|
  {
    if s != [] {
      EscapeEachSafe(s[1..]);
      var head, tail := EscapeChar(s[0]), EscapeEach(s[1..]);
      assert '<' !in head && '>' !in head;
      assert forall x :: x in head + tail ==> x in head || x in tail;
      if '&' !in s && '<' !in s && '>' !in s {
        assert '&' !in s[1..] && '<' !in s[1..] && '>' !in s[1..];
        assert s == [s[0]] + s[1..];
      }
    }
  }

  /** `undefined` and `null` render as nothing; the escaped text never holds
      a raw `<` or `>`; text without `&`, `<` and `>` is left as it is. */
  lemma EscapeHtmlSafe(str: Option<string>)
    ensures str.None? ==> EscapeHtml(str) == ""
    ensures '<' !in EscapeHtml(str) && '>' !in EscapeHtml(str)
    ensures str.Some? && '&' !in str.value && '<' !in str.value && '>' !in str.value ==> EscapeHtml(str) == str.value
  {
    if str.Some? {
      ChainIsPerCharacter(str.value);
      EscapeEachSafe(str.value);
    }
  }

  // ----- decoding -----

  /** What an HTML parser shows for escaped text: `&amp;`, `&lt;` and `&gt;`
      decoded, read left to right. */
  function Unescape(s: string): string
    decreases |s|
  {
    if s == [] then []
    else if "&amp;" <= s then "&" + Unescape(s[5..])
    else if "&lt;" <= s then "<" + Unescape(s[4..])
    else if "&gt;" <= s then ">" + Unescape(s[4..])
    else [s[0]] + Unescape(s[1..])
  }

  lemma UnescapeEscapeChar(c: char, rest: string)
    ensures Unescape(EscapeChar(c) + rest) == [c] + Unescape(rest)
  {
    var t := EscapeChar(c) + rest;
    if c == '&' {
      assert "&amp;" <= t && t[5..] == rest;
    } else if c == '<' {
      assert t[1] == 'l';
      assert !("&amp;" <= t) && "&lt;" <= t && t[4..] == rest;
    } else if c == '>' {
      assert t[1] == 'g';
      assert !("&amp;" <= t) && !("&lt;" <= t) && "&gt;" <= t && t[4..] == rest;
    } else {
      assert t[0] == c && t[1..] == rest;
    }
  }

  lemma {:induction false} UnescapeEscapeEach(s: string)
    ensures Unescape(EscapeEach(s)) == s
    decreases |s|
  {
    if s != [] {
      UnescapeEscapeChar(s[0], EscapeEach(s[1..]));
      UnescapeEscapeEach(s[1..]);
    }
  }

  /** Escaping loses nothing: decoding the escaped text gives back the input,
      so the page displays exactly the original text. */
  lemma EscapeRoundTrip(s: string)
    ensures Unescape(EscapeHtml(Some(s))) == s
  {
    EscapeIsPerCharacter(s);
    UnescapeEscapeEach(s);
  }

  /** Different texts are never escaped to the same markup. */
  lemma EscapeInjective(a: string, b: string)
    requires EscapeHtml(Some(a)) == EscapeHtml(Some(b))
    ensures a == b
  {
    EscapeRoundTrip(a);
    EscapeRoundTrip(b);
  }
}
