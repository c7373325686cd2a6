/** The escaping helpers of the two browser scripts: `esc` and `escAttr` replace the five HTML
    special characters with entities, `escJs` prepares text for a single-quoted JavaScript
    literal. Each is a chain of global single-character replacements; the chains are compared
    with a per-character reference encoding and with the decoders a browser applies. */
module Escaping {
  import opened Wrappers
  import opened Strings

  /** The replacement chains: the HTML one, `escJs` as written, and `escJs` with the carriage
      return escaped as well. */
  datatype Scheme = Html | Js | JsFixed

  /** The position of `c`'s replacement in the scheme's chain, 0 when `c` is left alone. */
  function Rank(c: char, sc: Scheme): nat {
    match sc
    case Html =>
      if c == '&' then 1 else if c == '<' then 2 else if c == '>' then 3
      else if c == '"' then 4 else if c == '\'' then 5 else 0
    case Js => if c == '\\' then 1 else if c == '\'' then 2 else if c == '\n' then 3 else 0
    case JsFixed =>
      if c == '\\' then 1 else if c == '\'' then 2 else if c == '\n' then 3
      else if c == '\r' then 4 else 0
  }

  /** The length of the scheme's chain. */
  function Steps(sc: Scheme): nat {
    match sc
    case Html => 5
    case Js => 3
    case JsFixed => 4
  }

  /** What the chain turns `c` into. */
  function Replacement(c: char, sc: Scheme): string {
    match sc
    case Html =>
      if c == '&' then "&amp;" else if c == '<' then "&lt;" else if c == '>' then "&gt;"
      else if c == '"' then "&quot;" else if c == '\'' then "&#39;" else [c]
    case _ =>
      if c == '\\' then "\\\\" else if c == '\'' then "\\'" else if c == '\n' then "\\n"
      else if c == '\r' && sc == JsFixed then "\\r" else [c]
  }

  /** A replacement holds no character that a later step of the chain replaces. */
  lemma ReplacementRanks(c: char, sc: Scheme)
    requires Rank(c, sc) > 0
    ensures forall i :: 0 <= i < |Replacement(c, sc)| ==> Rank(Replacement(c, sc)[i], sc) <= Rank(c, sc)
  {
  }

  /** `c` once the first `n` steps of the chain have run. */
  function Piece(c: char, n: nat, sc: Scheme): string {
    if 0 < Rank(c, sc) <= n then Replacement(c, sc) else [c]
  }

  /** The reference encoding: `s` once the first `n` steps have run, each character encoded on
      its own. */
  function Encoded(s: string, n: nat, sc: Scheme): string
    decreases |s|
  {
    if s == [] then [] else Piece(s[0], n, sc) + Encoded(s[1..], n, sc)
  }

  lemma {:induction false} EncodedNone(s: string, sc: Scheme)
    ensures Encoded(s, 0, sc) == s
    decreases |s|
  {
    if s != [] {
      EncodedNone(s[1..], sc);
      assert [s[0]] + s[1..] == s;
    }
  }

  lemma ReplaceCharSingle(c: char, x: char, rep: string)
    ensures ReplaceChar([c], x, rep) == if c == x then rep else [c]
  {
    assert [c][1..] == [];
  }

  /** One replacement step on a single encoded character. */
  lemma PieceStep(c: char, n: nat, x: char, sc: Scheme)
    requires Rank(x, sc) == n + 1
    ensures ReplaceChar(Piece(c, n, sc), x, Replacement(x, sc)) == Piece(c, n + 1, sc)
  {
    if 0 < Rank(c, sc) <= n {
      ReplacementRanks(c, sc);
      assert x !in Replacement(c, sc);
    } else {
      ReplaceCharSingle(c, x, Replacement(x, sc));
    }
  }

  /** One more global replacement advances the reference encoding by one step, because no
      earlier replacement introduced the character it replaces. */
  lemma {:induction false} EncodeStep(s: string, n: nat, x: char, sc: Scheme)
    requires Rank(x, sc) == n + 1
    ensures ReplaceChar(Encoded(s, n, sc), x, Replacement(x, sc)) == Encoded(s, n + 1, sc)
    decreases |s|
  {
    if s != [] {
      var rep := Replacement(x, sc);
      ReplaceCharAppend(Piece(s[0], n, sc), Encoded(s[1..], n, sc), x, rep);
      EncodeStep(s[1..], n, x, sc);
      PieceStep(s[0], n, x, sc);
    }
  }

  /** `s` contains none of the characters the scheme replaces. */
  predicate NoSpecials(s: string, sc: Scheme) {
    forall i :: 0 <= i < |s| ==> Rank(s[i], sc) == 0
  }

  /** Text without special characters encodes to itself. */
  lemma {:induction false} EncodedPlain(s: string, n: nat, sc: Scheme)
    requires NoSpecials(s, sc)
    ensures Encoded(s, n, sc) == s
    decreases |s|
  {
    if s != [] {
      assert Rank(s[0], sc) == 0;
      EncodedPlain(s[1..], n, sc);
      assert [s[0]] + s[1..] == s;
    }
  }

  /** The replacement chain of `esc` and `escAttr`, `&` first. */
  function HtmlEscape(s: string): (r: string)
    ensures '\'' !in r
  {
    var amp := ReplaceChar(s, '&', "&amp;");
    var lt := ReplaceChar(amp, '<', "&lt;");
    var gt := ReplaceChar(lt, '>', "&gt;");
    var quot := ReplaceChar(gt, '"', "&quot;");
    ReplaceChar(quot, '\'', "&#39;")
  }

  /** The chain agrees with the reference encoding: every special character becomes its
      entity and every other character stays. */
  lemma HtmlEscapeEncodes(s: string)
    ensures HtmlEscape(s) == Encoded(s, Steps(Html), Html)
  {
    var amp := ReplaceChar(s, '&', "&amp;");
    assert amp == Encoded(s, 1, Html) by {
      EncodedNone(s, Html);
      EncodeStep(s, 0, '&', Html);
    }
    var lt := ReplaceChar(amp, '<', "&lt;");
    assert lt == Encoded(s, 2, Html) by { EncodeStep(s, 1, '<', Html); }
    var gt := ReplaceChar(lt, '>', "&gt;");
    assert gt == Encoded(s, 3, Html) by { EncodeStep(s, 2, '>', Html); }
    var quot := ReplaceChar(gt, '"', "&quot;");
    assert quot == Encoded(s, 4, Html) by { EncodeStep(s, 3, '"', Html); }
    EncodeStep(s, 4, '\'', Html);
  }

  /** The output has no raw `<`, `>`, `"` or `'`: each is gone after its own step and no later
      entity reintroduces it. */
  lemma HtmlEscapeNoRawSpecials(s: string)
    ensures var r := HtmlEscape(s); '<' !in r && '>' !in r && '"' !in r && '\'' !in r
  {
    HtmlEscapeEncodes(s);
    EncodedHtmlExcludes(s, '<');
    EncodedHtmlExcludes(s, '>');
    EncodedHtmlExcludes(s, '"');
    EncodedHtmlExcludes(s, '\'');
  }

  /** No special character other than `&` survives the full HTML encoding. */
  lemma {:induction false} EncodedHtmlExcludes(s: string, x: char)
    requires Rank(x, Html) >= 2
    ensures x !in Encoded(s, Steps(Html), Html)
    decreases |s|
  {
    if s != [] {
      EncodedHtmlExcludes(s[1..], x);
      if Rank(s[0], Html) > 0 {
        ReplacementRanks(s[0], Html);
        HtmlReplacementShape(s[0]);
      }
      assert x !in Piece(s[0], Steps(Html), Html);
    }
  }

  /** Text without any of the five special characters is left as it is. */
  lemma HtmlEscapePlain(s: string)
    requires NoSpecials(s, Html)
    ensures HtmlEscape(s) == s
  {
    HtmlEscapeEncodes(s);
    EncodedPlain(s, Steps(Html), Html);
  }

  /** Decoding the five entities, `&amp;` last, as `replace` calls. */
  function DecodeEntities(t: string): string {
    var apos := ReplaceText(t, "&#39;", "'");
    var quot := ReplaceText(apos, "&quot;", "\"");
    var gt := ReplaceText(quot, "&gt;", ">");
    var lt := ReplaceText(gt, "&lt;", "<");
    ReplaceText(lt, "&amp;", "&")
  }

  lemma HtmlReplacementShape(c: char)
    requires Rank(c, Html) > 0
    ensures |Replacement(c, Html)| >= 2 && Replacement(c, Html)[0] == '&'
    ensures '&' !in Replacement(c, Html)[1..]
    ensures forall i :: 0 <= i < |Replacement(c, Html)| ==> Rank(Replacement(c, Html)[i], Html) <= 1
  {
  }

  /** Two different entities differ in their second character. */
  lemma HtmlReplacementsDiffer(c: char, d: char)
    requires Rank(c, Html) > 0 && Rank(d, Html) > 0 && c != d
    ensures Replacement(c, Html)[1] != Replacement(d, Html)[1]
  {
  }

  /** Decoding one entity undoes the matching step of the chain. */
  lemma {:induction false} DecodeStep(s: string, n: nat, x: char)
    requires Rank(x, Html) == n + 1
    ensures ReplaceText(Encoded(s, n + 1, Html), Replacement(x, Html), [x]) == Encoded(s, n, Html)
    decreases |s|
  {
    var pat := Replacement(x, Html);
    HtmlReplacementShape(x);
    if s == [] {
      assert |Encoded(s, n + 1, Html)| < |pat|;
    } else {
      var p := Piece(s[0], n + 1, Html);
      var rest := Encoded(s[1..], n + 1, Html);
      DecodeStep(s[1..], n, x);
      if s[0] == x {
        ReplaceTextMatch(rest, pat, [x]);
      } else if 0 < Rank(s[0], Html) <= n {
        HtmlReplacementShape(s[0]);
        HtmlReplacementsDiffer(s[0], x);
        ReplaceTextMiss(p, rest, pat, [x]);
      } else {
        assert p == [s[0]] && s[0] != '&';
        ReplaceTextSkip(p, rest, pat, [x]);
      }
    }
  }

  /** Decoding the entities recovers the text `esc` was given: `&` is encoded first and
      decoded last, so no entity is decoded twice. */
  lemma HtmlRoundTrip(s: string)
    ensures DecodeEntities(HtmlEscape(s)) == s
  {
    DecodeStep(s, 4, '\'');
    DecodeStep(s, 3, '"');
    DecodeStep(s, 2, '>');
    DecodeStep(s, 1, '<');
    DecodeStep(s, 0, '&');
    EncodedNone(s, Html);
    HtmlEscapeEncodes(s);
  }

  /** The replacement chain of `escJs`: backslash, single quote, line feed. */
  function JsEscape(s: string): (r: string)
    ensures '\n' !in r
  {
    var backslash := ReplaceChar(s, '\\', "\\\\");
    var quote := ReplaceChar(backslash, '\'', "\\'");
    ReplaceChar(quote, '\n', "\\n")
  }

  lemma JsEscapeEncodes(s: string)
    ensures JsEscape(s) == Encoded(s, Steps(Js), Js)
  {
    var backslash := ReplaceChar(s, '\\', "\\\\");
    assert backslash == Encoded(s, 1, Js) by {
      EncodedNone(s, Js);
      EncodeStep(s, 0, '\\', Js);
    }
    var quote := ReplaceChar(backslash, '\'', "\\'");
    assert quote == Encoded(s, 2, Js) by { EncodeStep(s, 1, '\'', Js); }
    EncodeStep(s, 2, '\n', Js);
  }

  /** `escJs` with the carriage return escaped too. */
  function JsEscapeFixed(s: string): (r: string)
    ensures '\n' !in r && '\r' !in r
  {
    var backslash := ReplaceChar(s, '\\', "\\\\");
    var quote := ReplaceChar(backslash, '\'', "\\'");
    var newline := ReplaceChar(quote, '\n', "\\n");
    ReplaceCharKeepsOut(newline, '\r', "\\r", '\n');
    ReplaceChar(newline, '\r', "\\r")
  }

  lemma JsEscapeFixedEncodes(s: string)
    ensures JsEscapeFixed(s) == Encoded(s, Steps(JsFixed), JsFixed)
  {
    var backslash := ReplaceChar(s, '\\', "\\\\");
    assert backslash == Encoded(s, 1, JsFixed) by {
      EncodedNone(s, JsFixed);
      EncodeStep(s, 0, '\\', JsFixed);
    }
    var quote := ReplaceChar(backslash, '\'', "\\'");
    assert quote == Encoded(s, 2, JsFixed) by { EncodeStep(s, 1, '\'', JsFixed); }
    var newline := ReplaceChar(quote, '\n', "\\n");
    assert newline == Encoded(s, 3, JsFixed) by { EncodeStep(s, 2, '\n', JsFixed); }
    EncodeStep(s, 3, '\r', JsFixed);
  }

  /** The character a JavaScript escape sequence `\c` stands for. None: a numeric or Unicode
      escape or a line continuation, which this model does not decode. */
  function JsEscapeValue(c: char): Option<char> {
    if c == 'n' then Some('\n')
    else if c == 'r' then Some('\r')
    else if c == 't' then Some('\t')
    else if c == 'b' then Some('\U{8}')
    else if c == 'f' then Some('\U{C}')
    else if c == 'v' then Some('\U{B}')
    else if c == 'x' || c == 'u' || ('0' <= c <= '9') || c == '\n' || c == '\r'
         || c == '\U{2028}' || c == '\U{2029}' then None
    else Some(c)
  }

  function Prefix(c: char, r: Option<string>): Option<string> {
    if r.Some? then Some([c] + r.value) else None
  }

  /** The value of a single-quoted JavaScript string literal whose body is `t`. None: the
      literal is broken, by a raw quote or line break or a trailing backslash, or uses an
      escape this model does not decode. */
  function UnescapeJs(t: string): (r: Option<string>)
    decreases |t|
  {
    if t == [] then Some([])
    else if t[0] == '\\' then
      if |t| == 1 then None
      else
        var e := JsEscapeValue(t[1]);
        if e.None? then None else Prefix(e.value, UnescapeJs(t[2..]))
    else if t[0] == '\'' || t[0] == '\n' || t[0] == '\r' then None
    else Prefix(t[0], UnescapeJs(t[1..]))
  }

  /** A character that the JavaScript parser takes literally inside a single-quoted literal. */
  predicate JsLiteralChar(c: char) {
    c != '\\' && c != '\'' && c != '\n' && c != '\r'
  }

  lemma JsPieceStep(c: char, u: string, sc: Scheme)
    requires sc != Html
    requires Rank(c, sc) > 0 || JsLiteralChar(c)
    ensures UnescapeJs(Piece(c, Steps(sc), sc) + u) == Prefix(c, UnescapeJs(u))
  {
    var t := Piece(c, Steps(sc), sc) + u;
    if Rank(c, sc) > 0 {
      assert t[0] == '\\' && t[2..] == u;
    } else {
      assert t[0] == c && t[1..] == u;
    }
  }

  /** The JavaScript parser reads back what the chain encoded, provided every character the
      chain leaves raw is one a literal may hold. */
  lemma {:induction false} JsDecodeEncoded(s: string, sc: Scheme)
    requires sc != Html
    requires forall i :: 0 <= i < |s| ==> Rank(s[i], sc) > 0 || JsLiteralChar(s[i])
    ensures UnescapeJs(Encoded(s, Steps(sc), sc)) == Some(s)
    decreases |s|
  {
    if s != [] {
      JsDecodeEncoded(s[1..], sc);
      JsPieceStep(s[0], Encoded(s[1..], Steps(sc), sc), sc);
      assert [s[0]] + s[1..] == s;
    }
  }

  /** `escJs` round-trips through the JavaScript parser when the text has no carriage return. */
  lemma JsRoundTrip(s: string)
    requires '\r' !in s
    ensures UnescapeJs(JsEscape(s)) == Some(s)
  {
    JsEscapeEncodes(s);
    JsDecodeEncoded(s, Js);
  }

  /** `escJs` leaves a carriage return raw, and a raw carriage return ends a JavaScript line,
      so the literal is broken. */
  lemma JsEscapeCarriageReturn()
    ensures JsEscape("\r") == "\r"
    ensures UnescapeJs(JsEscape("\r")) == None
  {
    JsEscapeEncodes("\r");
    EncodedPlain("\r", Steps(Js), Js);
  }

  /** The corrected `escJs` round-trips for every text. */
  lemma JsFixedRoundTrip(s: string)
    ensures UnescapeJs(JsEscapeFixed(s)) == Some(s)
  {
    JsEscapeFixedEncodes(s);
    JsDecodeEncoded(s, JsFixed);
  }

  /** The value an HTML parser takes for a double-quoted attribute: the text up to the first
      `"`. */
  function QuotedAttributeValue(t: string): (r: string)
    ensures |r| <= |t| && r == t[..|r|]
    ensures '"' !in t ==> r == t
    decreases |t|
  {
    if t == [] || t[0] == '"' then [] else [t[0]] + QuotedAttributeValue(t[1..])
  }

  /** `escJs` output is placed in a double-quoted `onclick` attribute, but a `"` passes through
      it, so the attribute ends inside the string argument. */
  lemma JsEscapeInAttribute()
    ensures JsEscape("a\"b") == "a\"b"
    ensures QuotedAttributeValue(JsEscape("a\"b")) == "a"
  {
    var t := "a\"b";
    assert NoSpecials(t, Js) by {
      assert t[0] == 'a' && t[1] == '"' && t[2] == 'b';
    }
    assert JsEscape(t) == t by {
      JsEscapeEncodes(t);
      EncodedPlain(t, Steps(Js), Js);
    }
    assert t[1..] == "\"b";
    assert QuotedAttributeValue("\"b") == [];
  }

  /** `esc` output is also used as a single-quoted literal inside `onclick`: the attribute
      decodes `&#39;` back to `'`, which ends the literal. */
  lemma HtmlEscapeAsJsLiteral()
    ensures UnescapeJs(DecodeEntities(HtmlEscape("'"))) == None
  {
    HtmlRoundTrip("'");
  }

  /** Text for a single-quoted literal inside a double-quoted HTML attribute: escaped for the
      literal first, then for the attribute. */
  function InlineArgument(s: string): (r: string)
    ensures '"' !in r && '<' !in r
    ensures QuotedAttributeValue(r) == r
  {
    HtmlEscapeNoRawSpecials(JsEscapeFixed(s));
    HtmlEscape(JsEscapeFixed(s))
  }

  /** The browser recovers the text from an inline argument: the attribute's entities are
      decoded, then the literal is parsed. */
  lemma InlineArgumentRoundTrip(s: string)
    ensures UnescapeJs(DecodeEntities(InlineArgument(s))) == Some(s)
  {
    HtmlRoundTrip(JsEscapeFixed(s));
    JsFixedRoundTrip(s);
  }
}
