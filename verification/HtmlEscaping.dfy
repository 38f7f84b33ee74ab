/** Escaping for output: five whole-string replacements, the single mapping they amount to, and its inverse. */
module HtmlEscaping {

  /** `s.replace(/c/g, text)`. */
  function ReplaceAll(s: string, c: char, text: string): string {
    if s == "" then "" else (if s[0] == c then text else [s[0]]) + ReplaceAll(s[1..], c, text)
  }

  function EscapeHtml(s: string): string {
    ReplaceAll(ReplaceAll(ReplaceAll(ReplaceAll(ReplaceAll(s, '&', "&amp;"), '<', "&lt;"), '>', "&gt;"), '"', "&quot;"), '\'', "&#39;")
  }

  /** What one character becomes. */
  function Escaped(c: char): string {
    match c
    case '&' => "&amp;"
    case '<' => "&lt;"
    case '>' => "&gt;"
    case '"' => "&quot;"
    case '\'' => "&#39;"
    case _ => [c]
  }

  function EscapeEach(s: string): string {
    if s == "" then "" else Escaped(s[0]) + EscapeEach(s[1..])
  }

  lemma {:induction false} ReplaceAppends(a: string, b: string, c: char, text: string)
    ensures ReplaceAll(a + b, c, text) == ReplaceAll(a, c, text) + ReplaceAll(b, c, text)
    decreases |a|
  {
    if a == "" {
      assert a + b == b;
    } else {
      assert (a + b)[1..] == a[1..] + b;
      ReplaceAppends(a[1..], b, c, text);
    }
  }

  lemma {:induction false} ReplaceAbsent(s: string, c: char, text: string)
    requires c !in s
    ensures ReplaceAll(s, c, text) == s
    decreases |s|
  {
    if s != "" {
      ReplaceAbsent(s[1..], c, text);
      assert s == [s[0]] + s[1..];
    }
  }

  lemma ReplaceOne(c: char, d: char, text: string)
    ensures ReplaceAll([c], d, text) == if c == d then text else [c]
  {
    assert ReplaceAll([c][1..], d, text) == "";
  }

  lemma EscapeAppends(a: string, b: string)
    ensures EscapeHtml(a + b) == EscapeHtml(a) + EscapeHtml(b)
  {
    hide ReplaceAll;
    var a1, b1 := ReplaceAll(a, '&', "&amp;"), ReplaceAll(b, '&', "&amp;");
    var a2, b2 := ReplaceAll(a1, '<', "&lt;"), ReplaceAll(b1, '<', "&lt;");
    var a3, b3 := ReplaceAll(a2, '>', "&gt;"), ReplaceAll(b2, '>', "&gt;");
    var a4, b4 := ReplaceAll(a3, '"', "&quot;"), ReplaceAll(b3, '"', "&quot;");
    ReplaceAppends(a, b, '&', "&amp;");
    ReplaceAppends(a1, b1, '<', "&lt;");
    ReplaceAppends(a2, b2, '>', "&gt;");
    ReplaceAppends(a3, b3, '"', "&quot;");
    ReplaceAppends(a4, b4, '\'', "&#39;");
  }

  /** Each later replacement leaves the text of the earlier ones alone. */
  lemma EscapeOne(c: char)
    ensures EscapeHtml([c]) == Escaped(c)
  {
    hide ReplaceAll;
    ReplaceOne(c, '&', "&amp;");
    ReplaceOne(c, '<', "&lt;");
    ReplaceOne(c, '>', "&gt;");
    ReplaceOne(c, '"', "&quot;");
    ReplaceOne(c, '\'', "&#39;");
    ReplaceAbsent("&amp;", '<', "&lt;");
    ReplaceAbsent("&amp;", '>', "&gt;");
    ReplaceAbsent("&amp;", '"', "&quot;");
    ReplaceAbsent("&amp;", '\'', "&#39;");
    ReplaceAbsent("&lt;", '>', "&gt;");
    ReplaceAbsent("&lt;", '"', "&quot;");
    ReplaceAbsent("&lt;", '\'', "&#39;");
    ReplaceAbsent("&gt;", '"', "&quot;");
    ReplaceAbsent("&gt;", '\'', "&#39;");
    ReplaceAbsent("&quot;", '\'', "&#39;");
  }

  /** The five successive replacements are one simultaneous mapping. */
  lemma {:induction false} EscapeIsSimultaneous(s: string)
    ensures EscapeHtml(s) == EscapeEach(s)
    decreases |s|
  {
    if s != "" {
      assert s == [s[0]] + s[1..];
      hide EscapeHtml, Escaped;
      EscapeAppends([s[0]], s[1..]);
      EscapeOne(s[0]);
      EscapeIsSimultaneous(s[1..]);
    }
  }

  /** No raw angle bracket or quote is left. */
  lemma NothingRawRemains(s: string)
    ensures forall c :: c in EscapeHtml(s) ==> c != '<' && c != '>' && c != '"' && c != '\''
  {
    EscapeIsSimultaneous(s);
    EachLeavesNothingRaw(s);
  }

  lemma {:induction false} EachLeavesNothingRaw(s: string)
    ensures forall c :: c in EscapeEach(s) ==> c != '<' && c != '>' && c != '"' && c != '\''
    decreases |s|
  {
    if s != "" { EachLeavesNothingRaw(s[1..]); }
  }

  // ---------------------------------------------------------------------------------------------
  // Decoding

  /** The five entities read back; any other character stands for itself. */
  function Decode(s: string): string {
    if s == "" then ""
    else if "&amp;" <= s then "&" + Decode(s[5..])
    else if "&lt;" <= s then "<" + Decode(s[4..])
    else if "&gt;" <= s then ">" + Decode(s[4..])
    else if "&quot;" <= s then "\"" + Decode(s[6..])
    else if "&#39;" <= s then "'" + Decode(s[5..])
    else [s[0]] + Decode(s[1..])
  }

  lemma DecodeOne(c: char, rest: string)
    ensures Decode(Escaped(c) + rest) == [c] + Decode(rest)
  {
    var e := Escaped(c);
    assert e <= e + rest;
    assert (e + rest)[|e|..] == rest;
    match c
    case '&' => assert "&amp;" <= e + rest;
    case '<' => assert (e + rest)[1] == 'l';
    case '>' => assert (e + rest)[1] == 'g';
    case '"' => assert (e + rest)[1] == 'q';
    case '\'' => assert (e + rest)[1] == '#';
    case _ => assert (e + rest)[0] == c;
  }

  lemma {:induction false} EachDecodes(s: string)
    ensures Decode(EscapeEach(s)) == s
    decreases |s|
  {
    if s != "" {
      hide Decode, Escaped;
      DecodeOne(s[0], EscapeEach(s[1..]));
      EachDecodes(s[1..]);
      assert s == [s[0]] + s[1..];
    } else {
      assert Decode("") == "";
    }
  }

  /** Whatever was escaped reads back exactly. */
  lemma DecodeEscape(s: string)
    ensures Decode(EscapeHtml(s)) == s
  {
    EscapeIsSimultaneous(s);
    EachDecodes(s);
  }

  lemma EscapeIsInjective(s: string, t: string)
    requires EscapeHtml(s) == EscapeHtml(t)
    ensures s == t
  {
    hide EscapeHtml, Decode;
    DecodeEscape(s);
    DecodeEscape(t);
  }

  predicate Special(c: char) {
    c == '&' || c == '<' || c == '>' || c == '"' || c == '\''
  }

  /** Escaping leaves a text as it is exactly if it has none of the five characters; so escaping twice shows. */
  lemma EscapeFixesPlainText(s: string)
    ensures EscapeHtml(s) == s <==> forall c :: c in s ==> !Special(c)
  {
    EscapeIsSimultaneous(s);
    EachLengthens(s);
  }

  lemma EscapedLength(c: char)
    ensures if Special(c) then |Escaped(c)| > 1 else Escaped(c) == [c]
  {
  }

  lemma {:induction false} EachLengthens(s: string)
    ensures |EscapeEach(s)| >= |s|
    ensures |EscapeEach(s)| == |s| <==> forall c :: c in s ==> !Special(c)
    ensures (forall c :: c in s ==> !Special(c)) ==> EscapeEach(s) == s
    decreases |s|
  {
    if s != "" {
      EscapedLength(s[0]);
      hide Escaped, Special;
      EachLengthens(s[1..]);
      assert s == [s[0]] + s[1..];
      assert forall c :: c in s <==> c == s[0] || c in s[1..];
    }
  }
}
