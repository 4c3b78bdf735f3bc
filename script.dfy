/**
  The shared `script` entry: the page-load runtime as a fixed template into
  which the supported codes are written as a JavaScript array literal, and
  the reading of that literal as the script evaluates it.
*/
module Script {
  import opened Wrappers
  import opened Strings

  /** The runtime template: the text before and after the supported list. */
  const ScriptHead: string := "<script>\n(function(){\n  var supported = "
  const ScriptTail: string :=
    ";\n  var pref = (navigator.language || navigator.userLanguage || 'en').toLowerCase();\n" +
    "  var lang = supported.find(l => pref.startsWith(l)) || 'en';\n" +
    "  document.documentElement.setAttribute('lang', lang);\n\n" +
    "  document.querySelectorAll('.i18n[data-i18n-key]').forEach(function(el){\n" +
    "    var text = el.dataset[lang] || el.dataset.en || '';\n" +
    "    el.textContent = text;\n  });\n})();\n</script>\n"

  /** A code as a double-quoted literal. */
  function Quote(c: string): string {
    "\"" + (c + "\"")
  }

  /** The quoted codes, separated by `, `. */
  function QuotedList(codes: seq<string>): string {
    if |codes| == 0 then ""
    else if |codes| == 1 then Quote(codes[0])
    else Quote(codes[0]) + (", " + QuotedList(codes[1..]))
  }

  /** `Array#inspect` for plain codes: `["en", "es"]`. */
  function ArrayLiteral(codes: seq<string>): string {
    "[" + (QuotedList(codes) + "]")
  }

  /** Reads `"item"` entries separated by `, ` up to the closing `]`; yields the items and what follows. */
  function ReadItems(t: string): (r: Option<(seq<string>, string)>)
    ensures r.Some? ==> |r.value.1| < |t|
    decreases |t|
  {
    if |t| == 0 || t[0] != '"' then None
    else
      var j := IndexOf(t[1..], '"');
      if j == |t| - 1 then None
      else
        var item, rest := t[1..j + 1], t[j + 2..];
        if "]" <= rest then Some(([item], rest[1..]))
        else if ", " <= rest then
          match ReadItems(rest[2..])
          case None => None
          case Some((more, after)) => Some(([item] + more, after))
        else None
  }

  /** The array literal at the front of `t`, read as JavaScript reads string items without escapes. */
  function ReadArray(t: string): Option<(seq<string>, string)> {
    if "[]" <= t then Some(([], t[2..]))
    else if "[" <= t then ReadItems(t[1..])
    else None
  }

  /** The `supported` list the shared script evaluates at page load: the array literal right after the head. */
  function EmbeddedLangs(script: string): Option<seq<string>> {
    if ScriptHead <= script then
      match ReadArray(script[|ScriptHead|..])
      case Some((codes, _)) => Some(codes)
      case None => None
    else None
  }

  /** One quoted item followed by `rest`. */
  lemma ReadQuoted(c: string, rest: string)
    requires '"' !in c
    ensures var t := Quote(c) + rest;
      IndexOf(t[1..], '"') == |c| && t[0] == '"' && t[1..|c| + 1] == c && t[|c| + 2..] == rest
  {
    var t := Quote(c) + rest;
    assert t == "\"" + (c + ("\"" + rest));
    assert t[1..] == c + ("\"" + rest);
    IndexOfAfter(c, '"', rest);
    assert c + ['"'] + rest == c + ("\"" + rest);
  }

  lemma ReadItemsLast(c: string, rest: string)
    requires '"' !in c
    ensures ReadItems(Quote(c) + ("]" + rest)) == Some(([c], rest))
  {
    ReadQuoted(c, "]" + rest);
    assert ("]" + rest)[1..] == rest;
  }

  lemma ReadItemsNext(c: string, more: string, items: seq<string>, after: string)
    requires '"' !in c
    requires ReadItems(more) == Some((items, after))
    ensures ReadItems(Quote(c) + (", " + more)) == Some(([c] + items, after))
  {
    ReadQuoted(c, ", " + more);
    assert (", " + more)[0] == ',';
    assert (", " + more)[2..] == more;
  }

  lemma {:induction false} ReadQuotedList(codes: seq<string>, rest: string)
    requires |codes| > 0
    requires forall i :: 0 <= i < |codes| ==> '"' !in codes[i]
    ensures ReadItems(QuotedList(codes) + ("]" + rest)) == Some((codes, rest))
    decreases |codes|
  {
    var c := codes[0];
    if |codes| == 1 {
      ReadItemsLast(c, rest);
      assert codes == [c];
    } else {
      var more := QuotedList(codes[1..]) + ("]" + rest);
      ReadQuotedList(codes[1..], rest);
      ReadItemsNext(c, more, codes[1..], rest);
      assert QuotedList(codes) == Quote(c) + (", " + QuotedList(codes[1..]));
      Regroup(Quote(c), ", ", QuotedList(codes[1..]), "]" + rest);
      assert [c] + codes[1..] == codes;
    }
  }

  lemma ReadArrayLiteral(codes: seq<string>, tail: string)
    requires forall i :: 0 <= i < |codes| ==> '"' !in codes[i]
    ensures ReadArray(ArrayLiteral(codes) + tail) == Some((codes, tail))
  {
    var lit := ArrayLiteral(codes) + tail;
    if |codes| == 0 {
      assert lit == "[]" + tail;
    } else {
      ReadQuotedList(codes, tail);
      Regroup("[", QuotedList(codes), "]", tail);
      assert lit == "[" + (QuotedList(codes) + ("]" + tail));
      assert lit[1] == '"';
      NotPrefixAt("[]", lit, 1);
      assert lit[1..] == QuotedList(codes) + ("]" + tail);
    }
  }

  function ScriptText(codes: seq<string>): string {
    ScriptHead + (ArrayLiteral(codes) + ScriptTail)
  }

  /**
    The list written into the script is the list the script evaluates, for
    codes without `"` (written unescaped here) and without `<` (so no code
    can hold the `</script` that ends the script element early).
  */
  lemma ScriptEmbedsLangs(codes: seq<string>)
    requires forall i :: 0 <= i < |codes| ==> '"' !in codes[i] && '<' !in codes[i]
    ensures EmbeddedLangs(ScriptText(codes)) == Some(codes)
  {
    var lit := ArrayLiteral(codes) + ScriptTail;
    ReadArrayLiteral(codes, ScriptTail);
    PrefixSplit(ScriptHead, lit);
  }
}
