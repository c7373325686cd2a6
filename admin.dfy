/** The admin panel's configuration tab (static/scripts/admin.js): the attribute escaper, what
    `loadConfig` puts into the form fields, and how `saveConfig` reads them back. The form is
    reduced to the texts of its fields. */
module Admin {
  import opened Wrappers
  import opened Strings
  import opened JsValues
  import opened Escaping
  import Pictures

  /** `String(v || '')`: the empty string for a falsy value, the value's text otherwise. */
  function OrEmpty(v: JsValue): (r: string)
    ensures r == [] <==> Falsy(v)
    ensures !Falsy(v) ==> r == ToJsString(v)
  {
    TruthyPrintsNonEmpty(v);
    if Falsy(v) then "" else ToJsString(v)
  }

  /** `escAttr(v)`: the HTML escaper applied after the falsy fallback. */
  function EscAttr(v: JsValue): (r: string)
    ensures r == [] <==> Falsy(v)
  {
    HtmlRoundTrip(OrEmpty(v));
    assert DecodeEntities([]) == [];
    HtmlEscapePlain([]);
    HtmlEscape(OrEmpty(v))
  }

  /** A falsy value escapes to the empty string. */
  lemma EscAttrFalsy(v: JsValue)
    requires Falsy(v)
    ensures EscAttr(v) == ""
  {
    HtmlEscapePlain("");
  }

  /** `escAttr` output holds no raw `<`, `>`, `"` or `'`, so it cannot leave the attribute. */
  lemma EscAttrNoRawSpecials(v: JsValue)
    ensures var r := EscAttr(v); '<' !in r && '>' !in r && '"' !in r && '\'' !in r
  {
    HtmlEscapeNoRawSpecials(OrEmpty(v));
  }

  /** A string with none of the five special characters is left as it is. */
  lemma EscAttrPlain(s: string)
    requires NoSpecials(s, Html)
    ensures EscAttr(Str(s)) == s
  {
    HtmlEscapePlain(s);
  }

  /** Decoding the entities recovers the text: the empty string for a falsy value. */
  lemma EscAttrRoundTrip(v: JsValue)
    ensures DecodeEntities(EscAttr(v)) == OrEmpty(v)
  {
    HtmlRoundTrip(OrEmpty(v));
  }

  /** `escAttr` and `esc` differ on null: one falls back to the empty string, the other prints
      "null". */
  lemma EscAttrNullDiffers()
    ensures EscAttr(Null) == "" && Pictures.Esc(Null) == "null"
  {
    EscAttrFalsy(Null);
    Pictures.EscNull();
  }

  /** The value sanitization of an `<input type="text">` (the HTML standard's "strip newlines"):
      every line feed and carriage return is removed, everything else is kept in order. */
  function StripLineBreaks(s: string): (r: string)
    ensures NoLineBreaks(r)
    ensures NoLineBreaks(s) ==> r == s
    ensures forall c :: c in r ==> c in s
    ensures s != [] && !IsLineBreak(s[0]) ==> r != [] && r[0] == s[0]
    ensures s != [] && !IsLineBreak(s[|s| - 1]) ==> r != [] && r[|r| - 1] == s[|s| - 1]
  {
    if s == [] then []
    else if IsLineBreak(s[0]) then StripLineBreaks(s[1..])
    else [s[0]] + StripLineBreaks(s[1..])
  }

  /** Stripping works piece by piece, so the characters that are not line breaks stay in
      their order. */
  lemma {:induction false} StripAppend(a: string, b: string)
    ensures StripLineBreaks(a + b) == StripLineBreaks(a) + StripLineBreaks(b)
  {
    if a == [] {
      assert a + b == b;
    } else {
      assert (a + b)[0] == a[0] && (a + b)[1..] == a[1..] + b;
      StripAppend(a[1..], b);
    }
  }

  /** Every character that is not a line break is kept. */
  lemma {:induction false} StripKeeps(s: string, c: char)
    requires c in s && !IsLineBreak(c)
    ensures c in StripLineBreaks(s)
  {
    if s[0] != c {
      assert c in s[1..];
      StripKeeps(s[1..], c);
    }
  }

  /** A stored extension with a line break inside comes back without it, and still normalized. */
  lemma StripLineBreaksNormalized(e: string)
    requires e != [] && IsNormalized(e)
    ensures StripLineBreaks(e) != [] && IsNormalized(StripLineBreaks(e))
  {
    var r := StripLineBreaks(e);
    forall i | 0 <= i < |r|
      ensures !IsAsciiUpper(r[i])
    {
      assert r[i] in r;
      var j :| 0 <= j < |e| && e[j] == r[i];
    }
  }

  /** The value of each extension row's input after `loadConfig`: the row's markup holds
      `escAttr(e)`, which the browser decodes, and the text input then drops line breaks
      from its value. A missing list gives no rows. */
  function ExtensionRows(extensions: Option<seq<JsValue>>): (r: seq<string>)
    ensures |r| == |extensions.GetOr([])|
  {
    var list := extensions.GetOr([]);
    seq(|list|, i requires 0 <= i < |list| => StripLineBreaks(DecodeEntities(EscAttr(list[i]))))
  }

  /** Each row shows its extension's text without line breaks, the empty string for a falsy
      entry. */
  lemma ExtensionRowsShowValues(extensions: Option<seq<JsValue>>)
    ensures extensions.None? ==> ExtensionRows(extensions) == []
    ensures forall i :: 0 <= i < |ExtensionRows(extensions)| ==>
              ExtensionRows(extensions)[i] == StripLineBreaks(OrEmpty(extensions.value[i]))
  {
    var list := extensions.GetOr([]);
    forall i | 0 <= i < |list|
      ensures ExtensionRows(extensions)[i] == StripLineBreaks(OrEmpty(list[i]))
    {
      EscAttrRoundTrip(list[i]);
    }
  }

  /** Trimmed (JavaScript whitespace) and without upper-case ASCII letters. */
  predicate IsNormalized(e: string) {
    IsTrimmed(e, JavaScript) && forall i :: 0 <= i < |e| ==> !IsAsciiUpper(e[i])
  }

  /** One extension field as `saveConfig` reads it: trimmed, then lower-cased. */
  function NormalizeExtension(value: string): (r: string)
    ensures r == [] <==> AllSpace(value, JavaScript)
    ensures IsNormalized(r)
  {
    Lower(Trim(value, JavaScript))
  }

  /** A normalized extension is its own normalization. */
  lemma NormalizeExtensionFixed(e: string)
    requires IsNormalized(e)
    ensures NormalizeExtension(e) == e
  {
    TrimTrimmed(e, JavaScript);
    assert Lower(e) == e;
  }

  /** `saveConfig`'s extension list: every field normalized, the empty ones dropped. */
  function NormalizeExtensions(values: seq<string>): (r: seq<string>)
    ensures |r| <= |values|
    ensures forall i :: 0 <= i < |r| ==> r[i] != [] && IsNormalized(r[i])
  {
    if values == [] then []
    else
      var e := NormalizeExtension(values[0]);
      (if e == [] then [] else [e]) + NormalizeExtensions(values[1..])
  }

  /** Normalization works field by field and keeps the order. */
  lemma {:induction false} NormalizeExtensionsAppend(a: seq<string>, b: seq<string>)
    ensures NormalizeExtensions(a + b) == NormalizeExtensions(a) + NormalizeExtensions(b)
  {
    if a == [] {
      assert a + b == b;
    } else {
      var e := NormalizeExtension(a[0]);
      var head: seq<string> := if e == [] then [] else [e];
      var ab := a + b;
      assert ab[0] == a[0] && ab[1..] == a[1..] + b;
      assert NormalizeExtensions(ab) == head + NormalizeExtensions(a[1..] + b);
      NormalizeExtensionsAppend(a[1..], b);
    }
  }

  /** A blank field is dropped; any other becomes its normalized text. */
  lemma NormalizeExtensionsSingle(value: string)
    ensures NormalizeExtensions([value])
            == if AllSpace(value, JavaScript) then [] else [NormalizeExtension(value)]
  {
    assert [value][1..] == [];
  }

  /** Saving a list that came out of a save gives the same list again. */
  lemma {:induction false} NormalizeExtensionsIdempotent(values: seq<string>)
    ensures NormalizeExtensions(NormalizeExtensions(values)) == NormalizeExtensions(values)
  {
    if values != [] {
      var e := NormalizeExtension(values[0]);
      var rest := NormalizeExtensions(values[1..]);
      NormalizeExtensionsIdempotent(values[1..]);
      if e != [] {
        assert NormalizeExtensions(values) == [e] + rest;
        NormalizeExtensionsAppend([e], rest);
        NormalizeExtensionFixed(e);
        NormalizeExtensionsSingle(e);
      } else {
        assert NormalizeExtensions(values) == rest;
      }
    }
  }

  /** A list of non-empty normalized extensions is its own normalization. */
  lemma {:induction false} NormalizeExtensionsFixed(values: seq<string>)
    requires forall i :: 0 <= i < |values| ==> values[i] != [] && IsNormalized(values[i])
    ensures NormalizeExtensions(values) == values
  {
    if values != [] {
      NormalizeExtensionFixed(values[0]);
      NormalizeExtensionsFixed(values[1..]);
      assert [values[0]] + values[1..] == values;
    }
  }

  /** A list that `saveConfig` produced comes back from a load followed by a save with the
      line breaks inside its extensions removed, and unchanged when it has none. */
  lemma ExtensionsReload(names: seq<string>)
    requires names == NormalizeExtensions(names)
    ensures var stored := Some(seq(|names|, i requires 0 <= i < |names| => Str(names[i])));
            NormalizeExtensions(ExtensionRows(stored))
            == seq(|names|, i requires 0 <= i < |names| => StripLineBreaks(names[i]))
    ensures (forall i :: 0 <= i < |names| ==> NoLineBreaks(names[i])) ==>
            NormalizeExtensions(ExtensionRows(Some(seq(|names|, i requires 0 <= i < |names| => Str(names[i])))))
            == names
  {
    var stored := Some(seq(|names|, i requires 0 <= i < |names| => Str(names[i])));
    var shown := seq(|names|, i requires 0 <= i < |names| => StripLineBreaks(names[i]));
    ExtensionRowsShowValues(stored);
    forall i | 0 <= i < |names|
      ensures ExtensionRows(stored)[i] == shown[i]
      ensures shown[i] != [] && IsNormalized(shown[i])
    {
      assert OrEmpty(Str(names[i])) == names[i];
      StripLineBreaksNormalized(names[i]);
    }
    assert ExtensionRows(stored) == shown;
    NormalizeExtensionsFixed(shown);
  }

  /** The size `loadConfig` shows and `saveConfig` stores when the field gives none. */
  const DefaultMaxFileSize: int := 20

  /** `parseInt(field, 10) || 20`: NaN and 0 fall back to 20. */
  function MaxFileSize(field: string): (r: int)
    ensures r != 0
    ensures ParseInt(field).None? ==> r == DefaultMaxFileSize
    ensures ParseInt(field).Some? && ParseInt(field).value != 0 ==> r == ParseInt(field).value
  {
    var parsed := ParseInt(field);
    if parsed.None? || parsed.value == 0 then DefaultMaxFileSize else parsed.value
  }

  /** `loadConfig`'s size field: `data.max_file_size || 20`, as the input shows it. */
  function FileSizeField(v: JsValue): (r: string)
    ensures Falsy(v) ==> r == "20"
    ensures !Falsy(v) ==> r == ToJsString(v)
  {
    ToJsString(if Falsy(v) then Number(DefaultMaxFileSize) else v)
  }

  /** A stored integer size survives a load and a save, except that 0 becomes 20. */
  lemma FileSizeReload(n: int)
    requires IsSafeInteger(n)
    ensures MaxFileSize(FileSizeField(Number(n))) == if n == 0 then DefaultMaxFileSize else n
  {
    if n == 0 {
      ParseIntDecimal(DefaultMaxFileSize);
    } else {
      ParseIntDecimal(n);
    }
  }

  /** `(data.file_size_unit || 'MB').toUpperCase()`; None where a truthy value that is not a
      string has no `toUpperCase` and the call throws. */
  function SizeUnitField(v: JsValue): (r: Option<string>)
    ensures Falsy(v) ==> r == Some("MB")
    ensures !Falsy(v) && v.Str? ==> r == Some(Upper(v.s))
    ensures !Falsy(v) && !v.Str? ==> r == None
    ensures r.Some? ==> forall i :: 0 <= i < |r.value| ==> !IsAsciiLower(r.value[i])
  {
    if Falsy(v) then Some("MB")
    else if v.Str? then Some(Upper(v.s))
    else None
  }

  /** The unit field is stable: saving what it shows and loading again shows the same. */
  lemma SizeUnitReload(v: JsValue)
    requires SizeUnitField(v).Some?
    ensures SizeUnitField(Str(SizeUnitField(v).value)) == SizeUnitField(v)
  {
    var u := SizeUnitField(v).value;
    assert Upper(u) == u;
  }
}
