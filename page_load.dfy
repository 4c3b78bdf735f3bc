/**
  Build time and page load together: a fragment written by the compiler,
  read by the browser into an element, and rewritten by the script shows
  the translation the compiler resolved for the negotiated language, subject
  to JavaScript's falsy empty string.
*/
module PageLoad {
  import opened Wrappers
  import opened Html
  import opened HtmlReader
  import opened Strings
  import opened I18n
  import opened I18nRuntime

  /** The class list of a `class` attribute value: its space-separated tokens. */
  function ClassList(v: string): set<string>
    decreases |v|
  {
    var i := IndexOf(v, ' ');
    if i == |v| then (if v == "" then {} else {v})
    else (if i == 0 then {} else {v[..i]}) + ClassList(v[i + 1..])
  }

  /** The element the browser builds from a start tag's attributes, with some text content. */
  function ElementOf(attrs: seq<Attribute>, text: string): Element {
    var m := AttributeMap(attrs);
    Element(if "class" in m then ClassList(m["class"]) else {}, m, text)
  }

  lemma DataNameDistinct(a: string, b: string)
    requires a != b
    ensures "data-" + a != "data-" + b
  {
    assert ("data-" + a)[5..] == a;
    assert ("data-" + b)[5..] == b;
  }

  /** The value the fragment's element holds in `dataset[name]`, stated from the translation entry. */
  function DataFor(codes: seq<string>, key: string, langs: LangMap, name: string): Option<string> {
    if name in codes then Some(Resolve(langs, name, key)) else None
  }

  lemma ClassListSingle()
    ensures ClassList("i18n") == {"i18n"}
  {
    var s := "i18n";
    assert forall k :: 0 <= k < 4 ==> s[k] != ' ';
    assert IndexOf(s, ' ') == 4;
  }

  /** The attribute map of a fragment: class `i18n` and a key attribute. */
  lemma SpanAttrsClass(codes: seq<string>, key: string, langs: LangMap)
    ensures var m := AttributeMap(SpanAttrs(codes, key, langs));
      "class" in m && m["class"] == "i18n" && "data-i18n-key" in m
  {
    var all := SpanAttrs(codes, key, langs);
    assert all[0] == Attribute("class", "i18n") && all[1] == Attribute("data-i18n-key", key);
    assert forall i :: 2 <= i < |all| ==> all[i] == DataAttrs(codes, key, langs)[i - 2];
    assert forall i :: 2 <= i < |all| ==> all[i].name[0] == 'd';
    AttributeMapAt(all, "class", "i18n", 0);
  }

  /** The fragment's attributes after the class and the key are the language attributes. */
  lemma SpanAttrsAt(codes: seq<string>, key: string, langs: LangMap, i: nat)
    requires 2 <= i < |SpanAttrs(codes, key, langs)|
    ensures SpanAttrs(codes, key, langs)[i].name == "data-" + codes[i - 2]
    ensures SpanAttrs(codes, key, langs)[i].value == Resolve(langs, codes[i - 2], key)
  {
    assert SpanAttrs(codes, key, langs)[i] == DataAttrs(codes, key, langs)[i - 2];
  }

  /** A supported code's attribute holds its resolved translation. */
  lemma SpanAttrsDataPresent(codes: seq<string>, key: string, langs: LangMap, name: string)
    requires name != "i18n-key" && name in codes
    ensures var m := AttributeMap(SpanAttrs(codes, key, langs));
      "data-" + name in m && m["data-" + name] == Resolve(langs, name, key)
  {
    var all := SpanAttrs(codes, key, langs);
    var n := "data-" + name;
    assert n != "class" by { assert n[0] == 'd'; }
    DataNameDistinct(name, "i18n-key");
    var k :| 0 <= k < |codes| && codes[k] == name;
    forall i | 0 <= i < |all| && all[i].name == n ensures all[i].value == Resolve(langs, name, key) {
      if i >= 2 {
        SpanAttrsAt(codes, key, langs, i);
        if codes[i - 2] != name {
          DataNameDistinct(codes[i - 2], name);
        }
      }
    }
    SpanAttrsAt(codes, key, langs, k + 2);
    AttributeMapAt(all, n, Resolve(langs, name, key), k + 2);
  }

  /** An unsupported code has no attribute. */
  lemma SpanAttrsDataAbsent(codes: seq<string>, key: string, langs: LangMap, name: string)
    requires name != "i18n-key" && name !in codes
    ensures "data-" + name !in AttributeMap(SpanAttrs(codes, key, langs))
  {
    var all := SpanAttrs(codes, key, langs);
    var n := "data-" + name;
    assert n != "class" by { assert n[0] == 'd'; }
    DataNameDistinct(name, "i18n-key");
    forall i | 0 <= i < |all| ensures all[i].name != n {
      if i >= 2 {
        SpanAttrsAt(codes, key, langs, i);
        assert codes[i - 2] in codes;
        DataNameDistinct(codes[i - 2], name);
      }
    }
  }

  /**
    The element read from the fragment of `key` is selected by the script,
    and its `dataset[name]` holds the resolved translation exactly when
    `name` is a supported code.
  */
  lemma FragmentElement(codes: seq<string>, key: string, langs: LangMap, name: string, text: string)
    requires forall i :: 0 <= i < |codes| ==> NameChars(codes[i])
    requires name != "i18n-key"
    ensures ReadSpan(Fragment(codes, key, langs)).Some?
    ensures IsI18n(ElementOf(ReadSpan(Fragment(codes, key, langs)).value, text))
    ensures Data(ElementOf(ReadSpan(Fragment(codes, key, langs)).value, text), name) == DataFor(codes, key, langs, name)
  {
    FragmentReadsBack(codes, key, langs);
    SpanAttrsClass(codes, key, langs);
    if name in codes {
      SpanAttrsDataPresent(codes, key, langs, name);
    } else {
      SpanAttrsDataAbsent(codes, key, langs, name);
    }
    ClassListSingle();
  }

  /**
    The text the page shows for `key` when the script picked `lang`: the
    language's resolved translation when that is supported and non-empty,
    else the English one under the same conditions, else nothing. An empty
    translation, which the compiler keeps, is skipped here.
  */
  function ExpectedText(codes: seq<string>, key: string, langs: LangMap, lang: string): (t: string)
    ensures t == "" || t == Resolve(langs, lang, key) || t == Resolve(langs, "en", key)
  {
    if lang in codes && Resolve(langs, lang, key) != "" then Resolve(langs, lang, key)
    else if "en" in codes && Resolve(langs, "en", key) != "" then Resolve(langs, "en", key)
    else ""
  }

  /**
    End to end: after the script has run with the browser's preferences, an
    element read from the compiled fragment shows `ExpectedText` for the
    negotiated language, whatever text it held before.
  */
  lemma ShownAfterLoad(codes: seq<string>, key: string, langs: LangMap,
                       language: Option<string>, userLanguage: Option<string>, text: string)
    requires forall i :: 0 <= i < |codes| ==> NameChars(codes[i])
    requires "i18n-key" !in codes
    ensures ReadSpan(Fragment(codes, key, langs)).Some?
    ensures var lang := Negotiate(codes, Preference(language, userLanguage));
      Rewritten(ElementOf(ReadSpan(Fragment(codes, key, langs)).value, text), lang).text
        == ExpectedText(codes, key, langs, lang)
  {
    var lang := Negotiate(codes, Preference(language, userLanguage));
    FragmentElement(codes, key, langs, lang, text);
    FragmentElement(codes, key, langs, "en", text);
    ShownFor(ElementOf(ReadSpan(Fragment(codes, key, langs)).value, text), codes, key, langs, lang);
  }

  /** An i18n element whose data attributes hold the resolved translations shows `ExpectedText`. */
  lemma ShownFor(e: Element, codes: seq<string>, key: string, langs: LangMap, lang: string)
    requires IsI18n(e)
    requires Data(e, lang) == DataFor(codes, key, langs, lang)
    requires Data(e, "en") == DataFor(codes, key, langs, "en")
    ensures Rewritten(e, lang).text == ExpectedText(codes, key, langs, lang)
  {
  }
}
