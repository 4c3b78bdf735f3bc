/**
  A reader for the start tags the plugin writes: a tag name followed by
  attributes `name="value"`, each preceded by one space, closed by `>` (an
  optional single space before it is allowed). Attribute values are read up
  to the next double quote and decoded with `Unescape`.

  The reader is stricter than a browser's tokenizer: it accepts only
  attribute names the tokenizer neither lower-cases, splits at, replaces
  nor flags (no ASCII upper-case letter, no white space, `/`, `>` or `=`,
  and no `<`, `"`, `'` or NUL). It decodes only the five references `h`
  writes, and it keeps every other character of a value as written. A
  browser's parser turns CR and CRLF into LF and NUL into U+FFFD before it
  tokenizes, so on markup written by the plugin the reader reads the same
  names as a browser, and the same values wherever these contain no CR or
  NUL. This is the reading side against which the generated markup is
  checked.
*/
module HtmlReader {
  import opened Wrappers
  import opened Html
  import opened Strings

  /** A character a browser's tokenizer neither lower-cases, splits at, replaces nor flags in an attribute name. */
  predicate NameChar(c: char) {
    !('A' <= c <= 'Z') && c != ' ' && c != '\t' && c != '\n' && c != '\U{000C}' && c != '\r' &&
    c != '/' && c != '>' && c != '=' && c != '<' && c != '"' && c != '\'' && c != '\0'
  }

  /** Every character of `n` is kept unchanged in an attribute name. */
  predicate NameChars(n: string) {
    forall k :: 0 <= k < |n| ==> NameChar(n[k])
  }

  /** A name the reader accepts: non-empty and made of `NameChar`s. */
  predicate NameOk(n: string) {
    |n| > 0 && NameChars(n)
  }

  /**
    Reads one `name="value"` from the front of `t`; yields the attribute and
    what follows it. A name the reader does not accept is an error.
  */
  function ReadAttribute(t: string): (r: Option<(Attribute, string)>)
    ensures r.Some? ==> |r.value.1| < |t| && NameOk(r.value.0.name)
  {
    var i := IndexOf(t, '=');
    if NameOk(t[..i]) && i + 1 < |t| && t[i + 1] == '"' then
      var body := t[i + 2..];
      var j := IndexOf(body, '"');
      if j < |body| then Some((Attribute(t[..i], Unescape(body[..j])), body[j + 1..]))
      else None
    else None
  }

  /** Reads the attributes of a start tag up to and including its `>`; yields them and what follows. */
  function ReadAttributes(t: string): (r: Option<(seq<Attribute>, string)>)
    ensures r.Some? ==> |r.value.1| < |t|
    decreases |t|
  {
    if |t| == 0 then None
    else if t[0] == '>' then Some(([], t[1..]))
    else if t[0] != ' ' then None
    else if |t| > 1 && t[1] == '>' then Some(([], t[2..]))
    else
      match ReadAttribute(t[1..])
      case None => None
      case Some((a, rest)) =>
        match ReadAttributes(rest)
        case None => None
        case Some((more, after)) => Some(([a] + more, after))
  }

  /** Reads `<span ...></span>`, an element with an empty body; yields its attributes. */
  function ReadSpan(t: string): (r: Option<seq<Attribute>>)
  {
    if "<span" <= t then
      match ReadAttributes(t[5..])
      case Some((attrs, rest)) => if rest == "</span>" then Some(attrs) else None
      case None => None
    else None
  }

  /** The attributes written out in order, each preceded by one space. */
  function Spaced(attrs: seq<Attribute>): string {
    if |attrs| == 0 then "" else " " + (Render(attrs[0]) + Spaced(attrs[1..]))
  }

  /**
    The attribute map a browser builds from the attributes read from a start
    tag: when a name occurs twice, the first occurrence wins.
  */
  function AttributeMap(attrs: seq<Attribute>): (m: map<string, string>)
    ensures forall n :: n in m <==> exists i :: 0 <= i < |attrs| && attrs[i].name == n
  {
    if |attrs| == 0 then map[]
    else
      var m := AttributeMap(attrs[1..]);
      assert forall i :: 1 <= i < |attrs| ==> attrs[i] == attrs[1..][i - 1];
      m[attrs[0].name := attrs[0].value]
  }

  /** The reader splits `n="e"rest` at the first `=` and the next double quote. */
  lemma ReadAttributeSplit(n: string, e: string, rest: string)
    requires NameOk(n) && '"' !in e
    ensures ReadAttribute(n + ['='] + (['"'] + (e + ['"'] + rest))) == Some((Attribute(n, Unescape(e)), rest))
  {
    var body := e + ['"'] + rest;
    var t := n + ['='] + (['"'] + body);
    assert '=' !in n by { assert forall k :: 0 <= k < |n| ==> NameChar(n[k]); }
    IndexOfAfter(n, '=', ['"'] + body);
    assert t[|n| + 1] == '"';
    assert t[|n| + 2..] == body;
    assert t[..|n|] == n;
    IndexOfAfter(e, '"', rest);
    assert body[..|e|] == e;
    assert body[|e| + 1..] == rest;
  }

  /** One written attribute reads back as itself. */
  lemma ReadRendered(a: Attribute, rest: string)
    requires NameOk(a.name)
    ensures ReadAttribute(Render(a) + rest) == Some((a, rest))
  {
    var e := Escape(a.value);
    assert Render(a) + rest == a.name + ['='] + (['"'] + (e + ['"'] + rest)) by {
      assert Render(a) == a.name + ("=\"" + (e + "\""));
    }
    EscapeNoQuote(a.value);
    ReadAttributeSplit(a.name, e, rest);
    UnescapeEscape(a.value);
  }

  /** One step of `ReadAttributes`: a space, an attribute, then the remaining ones. */
  lemma ReadAttributesStep(a: Attribute, tail: string, more: seq<Attribute>, after: string)
    requires NameOk(a.name)
    requires ReadAttributes(tail) == Some((more, after))
    ensures ReadAttributes(" " + (Render(a) + tail)) == Some(([a] + more, after))
  {
    var t := " " + (Render(a) + tail);
    assert t[1..] == Render(a) + tail;
    assert t[1] == a.name[0];
    ReadRendered(a, tail);
  }

  lemma ReadClose(close: string, rest: string)
    requires close == ">" || close == " >"
    ensures ReadAttributes(close + rest) == Some(([], rest))
  {
    var t := close + rest;
    if close == ">" {
      assert t[0] == '>' && t[1..] == rest;
    } else {
      assert t[0] == ' ' && t[1] == '>' && t[2..] == rest;
    }
  }

  /** A written attribute list, closed by `>` or ` >`, reads back as itself. */
  lemma {:induction false} ReadSpaced(attrs: seq<Attribute>, close: string, rest: string)
    requires forall i :: 0 <= i < |attrs| ==> NameOk(attrs[i].name)
    requires close == ">" || close == " >"
    ensures ReadAttributes(Spaced(attrs) + (close + rest)) == Some((attrs, rest))
    decreases |attrs|
  {
    if |attrs| == 0 {
      ReadClose(close, rest);
      assert Spaced(attrs) + (close + rest) == close + rest;
    } else {
      ReadSpaced(attrs[1..], close, rest);
      ReadSpacedCons(attrs[0], attrs[1..], close + rest, rest);
      assert [attrs[0]] + attrs[1..] == attrs;
    }
  }

  /** One more written attribute in front of a list the reader reads back. */
  lemma ReadSpacedCons(a: Attribute, more: seq<Attribute>, tail: string, rest: string)
    requires NameOk(a.name)
    requires ReadAttributes(Spaced(more) + tail) == Some((more, rest))
    ensures ReadAttributes(Spaced([a] + more) + tail) == Some(([a] + more, rest))
  {
    ReadAttributesStep(a, Spaced(more) + tail, more, rest);
    Regroup(" ", Render(a), Spaced(more), tail);
    assert ([a] + more)[0] == a && ([a] + more)[1..] == more;
  }

  /** An empty span written with these attributes reads back as exactly these attributes. */
  lemma ReadSpanWritten(attrs: seq<Attribute>, close: string)
    requires forall i :: 0 <= i < |attrs| ==> NameOk(attrs[i].name)
    requires close == ">" || close == " >"
    ensures ReadSpan("<span" + (Spaced(attrs) + (close + "</span>"))) == Some(attrs)
  {
    var inner := Spaced(attrs) + (close + "</span>");
    ReadSpaced(attrs, close, "</span>");
    var t := "<span" + inner;
    assert "<span" <= t && t[5..] == inner;
  }

  /** When every occurrence of `n` carries `v`, the attribute map gives `v` for `n`. */
  lemma {:induction false} AttributeMapAt(attrs: seq<Attribute>, n: string, v: string, k: nat)
    requires k < |attrs| && attrs[k].name == n
    requires forall i :: 0 <= i < |attrs| && attrs[i].name == n ==> attrs[i].value == v
    ensures n in AttributeMap(attrs) && AttributeMap(attrs)[n] == v
    decreases |attrs|
  {
    if attrs[0].name != n {
      assert k > 0;
      forall i | 0 <= i < |attrs[1..]| && attrs[1..][i].name == n
        ensures attrs[1..][i].value == v
      {
        assert attrs[1..][i] == attrs[i + 1];
      }
      AttributeMapAt(attrs[1..], n, v, k - 1);
    }
  }
}
