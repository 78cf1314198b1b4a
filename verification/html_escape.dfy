/** The built-in text/plain -> text/html converter: HTML escaping of the five
    characters `& < > " '`, one character at a time.  `Unescape` is the
    reference inverse used to show that escaping loses no information. */
module HtmlEscape {

  /** Characters that may not appear raw in escaped output. */
  predicate Markup(c: char) {
    c == '<' || c == '>' || c == '"' || c == '\''
  }

  predicate Special(c: char) {
    c == '&' || Markup(c)
  }

  function EscapeChar(c: char): (r: string)
    ensures |r| >= 1
    ensures Special(c) <==> r[0] == '&'
    ensures !Special(c) ==> r == [c]
    ensures forall i :: 0 <= i < |r| ==> !Markup(r[i])
  {
    match c
    case '&' => "&amp;"
    case '<' => "&lt;"
    case '>' => "&gt;"
    case '"' => "&quot;"
    case '\'' => "&#39;"
    case _ => [c]
  }

  function Escape(s: string): (r: string)
    ensures |r| >= |s|
    ensures forall i :: 0 <= i < |r| ==> !Markup(r[i])
  {
    if |s| == 0 then "" else EscapeChar(s[0]) + Escape(s[1..])
  }

  /** Decodes the five entities `Escape` produces; any other character,
      including an `&` that starts no known entity, is kept as it is. */
  function Unescape(s: string): string
    decreases |s|
  {
    if |s| == 0 then ""
    else if s[0] != '&' then [s[0]] + Unescape(s[1..])
    else if |s| >= 5 && s[..5] == "&amp;" then "&" + Unescape(s[5..])
    else if |s| >= 4 && s[..4] == "&lt;" then "<" + Unescape(s[4..])
    else if |s| >= 4 && s[..4] == "&gt;" then ">" + Unescape(s[4..])
    else if |s| >= 6 && s[..6] == "&quot;" then "\"" + Unescape(s[6..])
    else if |s| >= 5 && s[..5] == "&#39;" then "'" + Unescape(s[5..])
    else [s[0]] + Unescape(s[1..])
  }

  /** Escaping distributes over concatenation: parts can be escaped
      separately and joined. */
  lemma {:induction false} EscapeAppend(a: string, b: string)
    ensures Escape(a + b) == Escape(a) + Escape(b)
    decreases |a|
  {
    if |a| == 0 {
      assert a + b == b;
    } else {
      assert (a + b)[0] == a[0];
      assert (a + b)[1..] == a[1..] + b;
      EscapeAppend(a[1..], b);
    }
  }

  /** Text with no special characters passes through unchanged. */
  lemma {:induction false} EscapePlain(s: string)
    requires forall i :: 0 <= i < |s| ==> !Special(s[i])
    ensures Escape(s) == s
    decreases |s|
  {
    if |s| > 0 {
      EscapePlain(s[1..]);
      assert [s[0]] + s[1..] == s;
    }
  }

  lemma UnescapeEscapeChar(c: char, rest: string)
    ensures Unescape(EscapeChar(c) + rest) == [c] + Unescape(rest)
  {
    var e := EscapeChar(c);
    var s := e + rest;
    if c == '&' {
      assert s[..5] == "&amp;";
      assert s[5..] == rest;
    } else if c == '<' {
      assert s[1] == 'l';
      assert |s| >= 5 ==> s[..5] != "&amp;";
      assert s[..4] == "&lt;";
      assert s[4..] == rest;
    } else if c == '>' {
      assert s[1] == 'g';
      assert |s| >= 5 ==> s[..5] != "&amp;";
      assert s[..4] != "&lt;";
      assert s[..4] == "&gt;";
      assert s[4..] == rest;
    } else if c == '"' {
      assert s[1] == 'q';
      assert s[..5] != "&amp;";
      assert s[..4] != "&lt;";
      assert s[..4] != "&gt;";
      assert s[..6] == "&quot;";
      assert s[6..] == rest;
    } else if c == '\'' {
      assert s[1] == '#';
      assert s[..5] != "&amp;";
      assert s[..4] != "&lt;";
      assert s[..4] != "&gt;";
      assert s[..5] == "&#39;";
      assert s[5..] == rest;
    } else {
      assert s[0] == c;
      assert s[1..] == rest;
    }
  }

  /** Round trip: escaping is injective, `Unescape` recovers the input. */
  lemma {:induction false} UnescapeEscape(s: string)
    ensures Unescape(Escape(s)) == s
    decreases |s|
  {
    if |s| > 0 {
      UnescapeEscapeChar(s[0], Escape(s[1..]));
      UnescapeEscape(s[1..]);
      assert [s[0]] + s[1..] == s;
    }
  }

  lemma EscapeExample()
    ensures Escape("<b>&") == "&lt;b&gt;&amp;"
  {
  }

  lemma EscapeTagExample()
    ensures Escape("A") == "A"
    ensures Escape("<b>") == "&lt;b&gt;"
  {
  }
}
