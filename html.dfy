/**
  HTML escaping as done by the plugin's helper `h` (CGI.escapeHTML), and the
  decoding of the five character references it produces (section 13.1.4 of
  the WHATWG HTML Standard), which is what a browser does when it reads the
  escaped text back out of an attribute value.
*/
module Html {

  /** The characters `h` replaces by a character reference. */
  predicate IsSpecial(c: char) {
    c == '&' || c == '<' || c == '>' || c == '"' || c == '\''
  }

  /** The replacement of one character. */
  function EscapeChar(c: char): (r: string)
    ensures |r| >= 1
    ensures IsSpecial(c) <==> r[0] == '&'
    ensures !IsSpecial(c) ==> r == [c]
  {
    if c == '&' then "&amp;"
    else if c == '<' then "&lt;"
    else if c == '>' then "&gt;"
    else if c == '"' then "&quot;"
    else if c == '\'' then "&#39;"
    else [c]
  }

  /** CGI.escapeHTML: every special character replaced, everything else kept. */
  function Escape(s: string): (r: string)
    ensures |r| >= |s|
    ensures |s| == 0 <==> |r| == 0
  {
    if |s| == 0 then "" else EscapeChar(s[0]) + Escape(s[1..])
  }

  /** An attribute of a start tag, with its value as the reader sees it (unescaped). */
  datatype Attribute = Attribute(name: string, value: string)

  /** How the plugin writes an attribute: `name="<escaped value>"`. */
  function Render(a: Attribute): string {
    a.name + ("=\"" + (Escape(a.value) + "\""))
  }

  /** One of the five references `h` emits starts at position `i` of `t`. */
  predicate EntityAt(t: string, i: nat)
    requires i <= |t|
  {
    "&amp;" <= t[i..] || "&lt;" <= t[i..] || "&gt;" <= t[i..] ||
    "&quot;" <= t[i..] || "&#39;" <= t[i..]
  }

  /**
    Text that can stand inside a quoted attribute value or in element content
    without ending it or opening markup: no `<`, `>`, `"` or `'`, and every
    `&` begins one of the five references.
  */
  predicate Inert(t: string) {
    forall i :: 0 <= i < |t| ==>
      t[i] != '<' && t[i] != '>' && t[i] != '"' && t[i] != '\'' &&
      (t[i] == '&' ==> EntityAt(t, i))
  }

  /** The decoder for the references `h` produces; any other `&` stays literal. */
  function Unescape(t: string): (r: string)
    ensures |r| <= |t|
    ensures (forall k :: 0 <= k < |t| ==> t[k] != '&') ==> r == t
    decreases |t|
  {
    if |t| == 0 then ""
    else if t[0] != '&' then [t[0]] + Unescape(t[1..])
    else if "&amp;" <= t then "&" + Unescape(t[5..])
    else if "&lt;" <= t then "<" + Unescape(t[4..])
    else if "&gt;" <= t then ">" + Unescape(t[4..])
    else if "&quot;" <= t then "\"" + Unescape(t[6..])
    else if "&#39;" <= t then "'" + Unescape(t[5..])
    else "&" + Unescape(t[1..])
  }

  /** Escaping distributes over concatenation. */
  lemma {:induction false} EscapeAppend(a: string, b: string)
    ensures Escape(a + b) == Escape(a) + Escape(b)
    decreases |a|
  {
    if |a| > 0 {
      calc {
        Escape(a + b);
        { assert (a + b)[0] == a[0] && (a + b)[1..] == a[1..] + b; }
        EscapeChar(a[0]) + Escape(a[1..] + b);
        { EscapeAppend(a[1..], b); }
        EscapeChar(a[0]) + (Escape(a[1..]) + Escape(b));
      }
    } else {
      assert a + b == b;
    }
  }

  /** Decoding one escaped character and then the rest. */
  lemma UnescapeEscapeChar(c: char, rest: string)
    ensures Unescape(EscapeChar(c) + rest) == [c] + Unescape(rest)
  {
    var t := EscapeChar(c) + rest;
    if IsSpecial(c) {
      // the references differ from one another at their second character
      assert t[1] == EscapeChar(c)[1];
    }
    if c == '&' {
      assert "&amp;" <= t && t[5..] == rest;
    } else if c == '<' {
      assert "&lt;" <= t && t[4..] == rest;
    } else if c == '>' {
      assert "&gt;" <= t && t[4..] == rest;
    } else if c == '"' {
      assert "&quot;" <= t && t[6..] == rest;
    } else if c == '\'' {
      assert "&#39;" <= t && t[5..] == rest;
    } else {
      assert t[0] == c && t[1..] == rest;
    }
  }

  /** Reading an escaped value back yields the original string. */
  lemma {:induction false} UnescapeEscape(s: string)
    ensures Unescape(Escape(s)) == s
    decreases |s|
  {
    if |s| > 0 {
      UnescapeEscapeChar(s[0], Escape(s[1..]));
      UnescapeEscape(s[1..]);
      assert [s[0]] + s[1..] == s;
    }
  }

  /** Escaping is injective: distinct values never produce the same text. */
  lemma EscapeInjective(s: string, s': string)
    requires Escape(s) == Escape(s')
    ensures s == s'
  {
    UnescapeEscape(s);
    UnescapeEscape(s');
  }

  lemma InertEscapeChar(c: char)
    ensures Inert(EscapeChar(c))
  {
    var r := EscapeChar(c);
    forall i | 0 <= i < |r|
      ensures r[i] != '<' && r[i] != '>' && r[i] != '"' && r[i] != '\'' &&
              (r[i] == '&' ==> EntityAt(r, i))
    {
      if IsSpecial(c) {
        assert r[0] == '&' && r[0..] == r;
        assert i > 0 ==> r[i] != '&';
      }
    }
  }

  /** Inert text stays inert when concatenated. */
  lemma InertAppend(a: string, b: string)
    requires Inert(a) && Inert(b)
    ensures Inert(a + b)
  {
    var t := a + b;
    forall i | 0 <= i < |t|
      ensures t[i] != '<' && t[i] != '>' && t[i] != '"' && t[i] != '\'' &&
              (t[i] == '&' ==> EntityAt(t, i))
    {
      if i < |a| {
        assert t[i] == a[i];
        assert t[i..] == a[i..] + b;
        if a[i] == '&' {
          assert EntityAt(a, i);
        }
      } else {
        var j := i - |a|;
        assert t[i] == b[j];
        assert t[i..] == b[j..];
        if b[j] == '&' {
          assert EntityAt(b, j);
        }
      }
    }
  }

  /** The output of `h` holds no raw `<`, `>`, `"` or `'`, and every `&` starts a reference. */
  lemma {:induction false} EscapeInert(s: string)
    ensures Inert(Escape(s))
    decreases |s|
  {
    if |s| > 0 {
      InertEscapeChar(s[0]);
      EscapeInert(s[1..]);
      InertAppend(EscapeChar(s[0]), Escape(s[1..]));
    }
  }

  /** Corollary used by attribute readers: escaped text holds no double quote. */
  lemma EscapeNoQuote(s: string)
    ensures '"' !in Escape(s)
  {
    EscapeInert(s);
    var r := Escape(s);
    assert forall i :: 0 <= i < |r| ==> r[i] != '"';
  }

  /** Text without special characters passes through `h` unchanged. */
  lemma {:induction false} EscapePlain(s: string)
    requires forall i :: 0 <= i < |s| ==> !IsSpecial(s[i])
    ensures Escape(s) == s
    decreases |s|
  {
    if |s| > 0 {
      EscapePlain(s[1..]);
      assert [s[0]] + s[1..] == s;
    }
  }

  /** The parts of `n="e"`, recovered by position. */
  lemma QuotedParts(n: string, e: string)
    ensures var r := n + ("=\"" + (e + "\""));
      |r| == |n| + |e| + 3 && r[..|n|] == n && r[|n|] == '=' && r[|n| + 1] == '"' &&
      r[|r| - 1] == '"' && r[|n| + 2..|r| - 1] == e
  {
    var r := n + ("=\"" + (e + "\""));
    assert r[|n| + 2..|r| - 1] == e;
  }

  /**
    A written attribute is the name, `="`, a text without double quotes, and
    a closing `"`.
  */
  lemma RenderQuoted(a: Attribute)
    ensures var r := Render(a);
      |r| >= |a.name| + 3 && r[..|a.name|] == a.name &&
      r[|a.name|] == '=' && r[|a.name| + 1] == '"' && r[|r| - 1] == '"' &&
      forall k :: |a.name| + 2 <= k < |r| - 1 ==> r[k] != '"'
  {
    var e := Escape(a.value);
    var r := Render(a);
    QuotedParts(a.name, e);
    EscapeNoQuote(a.value);
    assert forall k :: |a.name| + 2 <= k < |r| - 1 ==> r[k] == e[k - |a.name| - 2];
  }

  /** The text between the quotes of a written attribute decodes back to its value. */
  lemma RenderDecodes(a: Attribute)
    ensures |Render(a)| >= |a.name| + 3
    ensures Unescape(Render(a)[|a.name| + 2..|Render(a)| - 1]) == a.value
  {
    var e := Escape(a.value);
    QuotedParts(a.name, e);
    var mid := Render(a)[|a.name| + 2..|Render(a)| - 1];
    assert mid == e;
    UnescapeEscape(a.value);
  }
}
