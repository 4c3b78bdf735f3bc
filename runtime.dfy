/**
  The browser half of the I18n plugin: the script written under the
  `script` key reads the visitor's language preference, picks a supported
  language, marks the document with it and replaces the text of every i18n
  element present when it runs by the matching data attribute. Browser APIs
  are parameters here: the two navigator properties are optional strings,
  the document is a `Page` holding its `lang` attribute and the elements the
  parser has produced so far, in document order.
*/
module I18nRuntime {
  import opened Wrappers
  import opened Strings

  /** JavaScript truthiness of a string that may be undefined: the empty string is falsy. */
  predicate Truthy(v: Option<string>) {
    v.Some? && v.value != ""
  }

  /** `a || b` on a possibly undefined string and a string. */
  function JsOr(a: Option<string>, b: string): (r: string)
    ensures Truthy(a) ==> r == a.value
    ensures !Truthy(a) ==> r == b
  {
    if Truthy(a) then a.value else b
  }

  function IsUpper(c: char): bool {
    'A' <= c <= 'Z'
  }

  /**
    `toLowerCase` restricted to ASCII letters: each upper-case letter becomes
    its lower-case letter, 32 code points further on; nothing else changes.
  */
  function Lower(s: string): (r: string)
    ensures |r| == |s|
    ensures forall i :: 0 <= i < |r| ==> !IsUpper(r[i])
    ensures forall i :: 0 <= i < |s| && IsUpper(s[i]) ==> r[i] as int == s[i] as int + 32 && 'a' <= r[i] <= 'z'
    ensures forall i :: 0 <= i < |s| && !IsUpper(s[i]) ==> r[i] == s[i]
  {
    seq(|s|, i requires 0 <= i < |s| => if IsUpper(s[i]) then (s[i] as int + 32) as char else s[i])
  }

  /**
    `(navigator.language || navigator.userLanguage || 'en').toLowerCase()`:
    never empty, never upper case, and `en` when neither property is set.
  */
  function Preference(language: Option<string>, userLanguage: Option<string>): (pref: string)
    ensures pref != ""
    ensures forall i :: 0 <= i < |pref| ==> !IsUpper(pref[i])
    ensures Truthy(language) ==> pref == Lower(language.value)
    ensures !Truthy(language) && Truthy(userLanguage) ==> pref == Lower(userLanguage.value)
    ensures !Truthy(language) && !Truthy(userLanguage) ==> pref == "en"
  {
    var raw := JsOr(language, JsOr(userLanguage, "en"));
    assert raw != "";
    Lower(raw)
  }

  /** `supported.find(l => pref.startsWith(l))`, as the index of the first code that is a prefix of `pref`. */
  function FindPrefix(codes: seq<string>, pref: string): (r: Option<nat>)
    ensures r.Some? ==> r.value < |codes| && codes[r.value] <= pref
    ensures r.Some? ==> forall j :: 0 <= j < r.value ==> !(codes[j] <= pref)
    ensures r.None? ==> forall j :: 0 <= j < |codes| ==> !(codes[j] <= pref)
  {
    if |codes| == 0 then None
    else if codes[0] <= pref then Some(0)
    else
      match FindPrefix(codes[1..], pref)
      case None => None
      case Some(i) => Some(i + 1)
  }

  /** `codes[i]` is a prefix of `pref` and no earlier code is. */
  predicate FirstMatch(codes: seq<string>, pref: string, i: int) {
    0 <= i < |codes| && codes[i] <= pref && forall j :: 0 <= j < i ==> !(codes[j] <= pref)
  }

  /**
    `supported.find(...) || 'en'`: the first supported code that is a plain
    string prefix of the preference (no boundary at `-`), or `en` when none
    is, or when the first match is the empty code, which is falsy.
  */
  function Negotiate(codes: seq<string>, pref: string): (lang: string)
    ensures lang == "en" || lang in codes
    ensures lang != "en" ==> lang <= pref
    ensures forall i :: FirstMatch(codes, pref, i) && codes[i] != "" ==> lang == codes[i]
    ensures forall i :: FirstMatch(codes, pref, i) && codes[i] == "" ==> lang == "en"
    ensures (forall i :: 0 <= i < |codes| ==> !(codes[i] <= pref)) ==> lang == "en"
  {
    match FindPrefix(codes, pref)
    case None => "en"
    case Some(i) => if codes[i] != "" then codes[i] else "en"
  }

  /** An element of the page: its classes, its attributes and its text content. */
  datatype Element = Element(classes: set<string>, attrs: map<string, string>, text: string)

  /** Matches the selector `.i18n[data-i18n-key]`. */
  predicate IsI18n(e: Element) {
    "i18n" in e.classes && "data-i18n-key" in e.attrs
  }

  /** `el.dataset[name]`: the attribute `data-<name>`, if present. */
  function Data(e: Element, name: string): (r: Option<string>)
    ensures r.Some? <==> "data-" + name in e.attrs
    ensures r.Some? ==> r.value == e.attrs["data-" + name]
  {
    if "data-" + name in e.attrs then Some(e.attrs["data-" + name]) else None
  }

  /**
    `el.dataset[lang] || el.dataset.en || ''`: the language's text when it is
    non-empty, else the English text when that is non-empty, else nothing.
  */
  function Shown(e: Element, lang: string): (t: string)
    ensures t != "" ==> Data(e, lang) == Some(t) || Data(e, "en") == Some(t)
    ensures Truthy(Data(e, lang)) ==> t == Data(e, lang).value
    ensures !Truthy(Data(e, lang)) ==> t == (if Truthy(Data(e, "en")) then Data(e, "en").value else "")
  {
    JsOr(Data(e, lang), JsOr(Data(e, "en"), ""))
  }

  /** One element after the script: i18n elements get the shown text, others are left alone. */
  function Rewritten(e: Element, lang: string): (r: Element)
    ensures r.classes == e.classes && r.attrs == e.attrs
    ensures IsI18n(e) ==> r.text == Shown(e, lang)
    ensures !IsI18n(e) ==> r == e
  {
    if IsI18n(e) then e.(text := Shown(e, lang)) else e
  }

  /** The whole document after the script, element by element. */
  function RewriteAll(els: seq<Element>, lang: string): (r: seq<Element>)
    ensures |r| == |els|
    ensures forall i :: 0 <= i < |els| ==> r[i] == Rewritten(els[i], lang)
  {
    seq(|els|, i requires 0 <= i < |els| => Rewritten(els[i], lang))
  }

  /**
    The text shown never depends on the text an element had before, only on
    its classes and attributes.
  */
  lemma RewrittenIgnoresText(e: Element, e': Element, lang: string)
    requires e.classes == e'.classes && e.attrs == e'.attrs && IsI18n(e)
    ensures Rewritten(e, lang) == Rewritten(e', lang).(text := Rewritten(e, lang).text)
    ensures Rewritten(e, lang).text == Rewritten(e', lang).text
  {
  }

  /** Running the rewrite a second time changes nothing. */
  lemma RewriteIdempotent(els: seq<Element>, lang: string)
    ensures RewriteAll(RewriteAll(els, lang), lang) == RewriteAll(els, lang)
  {
    var once := RewriteAll(els, lang);
    forall i | 0 <= i < |els| ensures Rewritten(once[i], lang) == once[i] {
      if IsI18n(els[i]) {
        RewrittenIgnoresText(els[i], once[i], lang);
      }
    }
  }

  /** The document the script runs on. */
  class Page {
    /** The `lang` attribute of the document element. */
    var lang: string
    /** The elements present when the script runs, in document order. */
    var elements: array<Element>

    constructor (lang: string, elements: array<Element>)
      ensures this.lang == lang && this.elements == elements
    {
      this.lang := lang;
      this.elements := elements;
    }

    /** The `forEach` over the i18n elements: each one's text is replaced in place. */
    method RewriteElements(lang: string)
      modifies elements
      ensures elements[..] == RewriteAll(old(elements[..]), lang)
    {
      for i := 0 to elements.Length
        invariant forall k :: 0 <= k < i ==> elements[k] == Rewritten(old(elements[k]), lang)
        invariant forall k :: i <= k < elements.Length ==> elements[k] == old(elements[k])
      {
        elements[i] := Rewritten(elements[i], lang);
      }
    }

    /** The script, run once, inline, when the parser reaches it. */
    method Run(codes: seq<string>, language: Option<string>, userLanguage: Option<string>)
      modifies this, elements
      ensures elements == old(elements)
      ensures lang == Negotiate(codes, Preference(language, userLanguage))
      ensures elements[..] == RewriteAll(old(elements[..]), lang)
    {
      var pref := Preference(language, userLanguage);
      var chosen := Negotiate(codes, pref);
      lang := chosen;
      RewriteElements(chosen);
    }
  }

  /** Worked cases: a regional preference, an unsupported one, none at all, and an empty `navigator.language`. */
  lemma PreferenceExamples()
    ensures Preference(Some("es-MX"), None) == "es-mx"
    ensures Preference(Some("fr"), Some("de")) == "fr"
    ensures Preference(None, None) == "en"
    ensures Preference(Some(""), Some("ES")) == "es"
  {
  }

  lemma NegotiateRegional()
    ensures Negotiate(["en", "es", "zh"], "es-mx") == "es"
  {
    NotPrefixAt("en", "es-mx", 1);
  }

  lemma NegotiateUnsupported()
    ensures Negotiate(["en", "es", "zh"], "fr") == "en"
  {
    NotPrefixAt("en", "fr", 0);
    NotPrefixAt("es", "fr", 0);
    NotPrefixAt("zh", "fr", 0);
  }

  /** No boundary at `-`: `est` (Estonian) is taken for `es`. */
  lemma NegotiateNoBoundary()
    ensures Negotiate(["en", "es"], "est") == "es"
  {
    NotPrefixAt("en", "est", 1);
  }

  /** An empty code matches every preference but is falsy, so the result is `en`. */
  lemma NegotiateEmptyCode(pref: string)
    ensures Negotiate(["", "es"], pref) == "en"
  {
    assert "" <= pref;
  }
}
