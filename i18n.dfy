/**
  The build-time half of the I18n plugin: its configuration with defaults,
  the fallback chain that picks one display value per supported language,
  the `<span>` fragment written per translation key, and the output map
  that also carries the shared `script` entry.
*/
module I18n {
  import opened Wrappers
  import opened Html
  import opened HtmlReader
  import opened Script

  /** A translation entry: language code to translated text. */
  type LangMap = map<string, string>

  /** The translation table: key to its entry. */
  type Table = map<string, LangMap>

  /**
    The configuration hash, restricted to the two options the plugin reads;
    `None` stands for a missing (nil) option.
  */
  datatype Config = Config(supportedLangs: Option<seq<string>>, translations: Option<Table>)

  /** What the plugin object keeps after construction. */
  datatype Settings = Settings(supportedLangs: seq<string>, translations: Table)

  const DefaultLangs: seq<string> := ["en", "es"]

  /** `data[0] || {}`: the first argument, or an empty configuration when it is missing. */
  function FirstConfig(data: seq<Option<Config>>): (c: Config)
    ensures |data| > 0 && data[0].Some? ==> c == data[0].value
    ensures (|data| == 0 || data[0].None?) ==> c.supportedLangs.None? && c.translations.None?
  {
    if |data| > 0 && data[0].Some? then data[0].value else Config(None, None)
  }

  /**
    The constructor: an option given explicitly is kept as it is (an empty
    list included), and only a missing one falls back to its default.
  */
  function New(data: seq<Option<Config>>): (p: Settings)
    ensures FirstConfig(data).supportedLangs.Some? ==> p.supportedLangs == FirstConfig(data).supportedLangs.value
    ensures FirstConfig(data).supportedLangs.None? ==> p.supportedLangs == ["en", "es"]
    ensures FirstConfig(data).translations.Some? ==> p.translations == FirstConfig(data).translations.value
    ensures FirstConfig(data).translations.None? ==> p.translations == map[]
  {
    var config := FirstConfig(data);
    Settings(config.supportedLangs.GetOr(DefaultLangs), config.translations.GetOr(map[]))
  }

  /**
    `langs[lc] || langs['en'] || key`. Every Ruby string is truthy, so an
    empty translation is kept; only a missing one falls through.
  */
  function Resolve(langs: LangMap, lc: string, key: string): (r: string)
    ensures lc in langs ==> r == langs[lc]
    ensures lc !in langs && "en" in langs ==> r == langs["en"]
    ensures lc !in langs && "en" !in langs ==> r == key
  {
    if lc in langs then langs[lc]
    else if "en" in langs then langs["en"]
    else key
  }

  /** The per-language attributes of one key: `data-<lc>` with the resolved value, one per code, in order. */
  function DataAttrs(codes: seq<string>, key: string, langs: LangMap): (r: seq<Attribute>)
    ensures |r| == |codes|
    ensures forall i :: 0 <= i < |codes| ==>
      r[i].name == "data-" + codes[i] && r[i].value == Resolve(langs, codes[i], key)
  {
    if |codes| == 0 then []
    else [Attribute("data-" + codes[0], Resolve(langs, codes[0], key))] + DataAttrs(codes[1..], key, langs)
  }

  /** Each attribute written as `name="<escaped value>"`. */
  function AttrTexts(attrs: seq<Attribute>): (r: seq<string>)
    ensures |r| == |attrs|
    ensures forall i :: 0 <= i < |attrs| ==> r[i] == Render(attrs[i])
  {
    if |attrs| == 0 then [] else [Render(attrs[0])] + AttrTexts(attrs[1..])
  }

  /** `Array#join(' ')`. */
  function Join(xs: seq<string>): string {
    if |xs| == 0 then ""
    else if |xs| == 1 then xs[0]
    else xs[0] + (" " + Join(xs[1..]))
  }

  /**
    The joined text starts with the first item, has one space right after it
    when there are more, and ends with the last item.
  */
  lemma {:induction false} JoinEnds(xs: seq<string>)
    requires |xs| > 0
    ensures xs[0] <= Join(xs)
    ensures |xs| > 1 ==> |Join(xs)| > |xs[0]| && Join(xs)[|xs[0]|] == ' '
    ensures |xs[|xs| - 1]| <= |Join(xs)| && Join(xs)[|Join(xs)| - |xs[|xs| - 1]|..] == xs[|xs| - 1]
    decreases |xs|
  {
    if |xs| > 1 {
      var last := xs[|xs| - 1];
      assert xs[1..][|xs[1..]| - 1] == last;
      JoinEnds(xs[1..]);
      var rest := Join(xs[1..]);
      assert Join(xs) == xs[0] + (" " + rest);
      SuffixAfter(xs[0] + " ", rest, last);
      assert xs[0] + (" " + rest) == (xs[0] + " ") + rest;
    }
  }

  /** A suffix of `b` is a suffix of `a + b`. */
  lemma SuffixAfter(a: string, b: string, x: string)
    requires |x| <= |b| && b[|b| - |x|..] == x
    ensures |x| <= |a + b| && (a + b)[|a + b| - |x|..] == x
  {
    assert (a + b)[|a + b| - |x|..] == b[|b| - |x|..];
  }

  /** The attributes the fragment of `key` carries, in the order they are written. */
  function SpanAttrs(codes: seq<string>, key: string, langs: LangMap): seq<Attribute> {
    [Attribute("class", "i18n"), Attribute("data-i18n-key", key)] + DataAttrs(codes, key, langs)
  }

  /** What follows the last attribute: ` >` when there are no language attributes, else `>`. */
  function Close(codes: seq<string>): string {
    if |codes| == 0 then " >" else ">"
  }

  /** The markup written for one translation key. */
  function Fragment(codes: seq<string>, key: string, langs: LangMap): string {
    "<span class=\"i18n\" data-i18n-key=\"" + (Escape(key) + ("\" " +
      (Join(AttrTexts(DataAttrs(codes, key, langs))) + "></span>")))
  }

  /** `Array#join(' ')` of the written attributes is the spaced attribute list without its first space. */
  lemma {:induction false} JoinSpaced(attrs: seq<Attribute>)
    requires |attrs| > 0
    ensures " " + Join(AttrTexts(attrs)) == Spaced(attrs)
    decreases |attrs|
  {
    var texts := AttrTexts(attrs);
    assert texts[1..] == AttrTexts(attrs[1..]);
    if |attrs| > 1 {
      JoinSpaced(attrs[1..]);
    } else {
      assert attrs[1..] == [];
    }
  }

  /** The opening literal of the fragment, cut at the attribute boundaries. */
  lemma OpenLayout()
    ensures "<span class=\"i18n\" data-i18n-key=\"" == "<span" + (" " + ("class=\"i18n\"" + (" " + ("data-i18n-key" + "=\""))))
  {
  }

  /** The closing part of the fragment after the escaped key. */
  lemma CloseLayout(j: string, s: string, close: string)
    requires (s == " " + j && close == ">") || (s == "" && j == "" && close == " >")
    ensures "\" " + (j + "></span>") == "\"" + (s + (close + "</span>"))
  {
    if close == ">" {
      assert "\" " + (j + "></span>") == "\"" + (" " + (j + (">" + "</span>")));
    } else {
      assert j + "></span>" == ">" + "</span>";
    }
  }

  /** The fragment's text, with the literal parts laid out attribute by attribute. */
  lemma FragmentLayout(e: string, j: string, s: string, close: string)
    requires (s == " " + j && close == ">") || (s == "" && j == "" && close == " >")
    ensures "<span class=\"i18n\" data-i18n-key=\"" + (e + ("\" " + (j + "></span>")))
         == "<span" + ((" " + ("class=\"i18n\"" + (" " + (("data-i18n-key" + ("=\"" + (e + "\""))) + s)))) + (close + "</span>"))
  {
    OpenLayout();
    CloseLayout(j, s, close);
  }

  lemma SpacedCons(a: Attribute, rest: seq<Attribute>)
    ensures Spaced([a] + rest) == " " + (Render(a) + Spaced(rest))
  {
    assert ([a] + rest)[0] == a && ([a] + rest)[1..] == rest;
  }

  lemma RenderClass()
    ensures Render(Attribute("class", "i18n")) == "class=\"i18n\""
  {
    EscapePlain("i18n");
  }

  /** The spaced attribute list of a fragment, with the class and key attributes written out. */
  lemma SpanAttrsSpaced(codes: seq<string>, key: string, langs: LangMap)
    ensures Spaced(SpanAttrs(codes, key, langs)) == " " + ("class=\"i18n\"" + (" " +
      (("data-i18n-key" + ("=\"" + (Escape(key) + "\""))) + Spaced(DataAttrs(codes, key, langs)))))
  {
    var ds := DataAttrs(codes, key, langs);
    var cls, keyAttr := Attribute("class", "i18n"), Attribute("data-i18n-key", key);
    assert SpanAttrs(codes, key, langs) == [cls] + ([keyAttr] + ds);
    RenderClass();
    assert Render(keyAttr) == "data-i18n-key" + ("=\"" + (Escape(key) + "\""));
    SpacedCons(keyAttr, ds);
    SpacedCons(cls, [keyAttr] + ds);
  }

  /** The fragment is an empty span whose start tag lists `SpanAttrs`, written in order. */
  lemma FragmentShape(codes: seq<string>, key: string, langs: LangMap)
    ensures Fragment(codes, key, langs) == "<span" + (Spaced(SpanAttrs(codes, key, langs)) + (Close(codes) + "</span>"))
  {
    var ds := DataAttrs(codes, key, langs);
    SpanAttrsSpaced(codes, key, langs);
    if |codes| > 0 {
      JoinSpaced(ds);
    }
    FragmentLayout(Escape(key), Join(AttrTexts(ds)), Spaced(ds), Close(codes));
  }

  /**
    Reading the fragment back with the strict attribute reader gives exactly
    the class, the key, and one `data-<lc>` attribute per supported code in
    order, holding the resolved value; the span's body is empty. Needs codes
    that a browser's tokenizer neither lower-cases, splits at, replaces nor
    flags in an attribute name, since the plugin writes them there unescaped.
  */
  lemma FragmentReadsBack(codes: seq<string>, key: string, langs: LangMap)
    requires forall i :: 0 <= i < |codes| ==> NameChars(codes[i])
    ensures ReadSpan(Fragment(codes, key, langs)) == Some(SpanAttrs(codes, key, langs))
  {
    SpanAttrsNamesOk(codes, key, langs);
    FragmentShape(codes, key, langs);
    ReadSpanWritten(SpanAttrs(codes, key, langs), Close(codes));
  }

  /** Every attribute name of a fragment is one the reader accepts, given codes a browser's tokenizer neither lower-cases, splits at, replaces nor flags. */
  lemma SpanAttrsNamesOk(codes: seq<string>, key: string, langs: LangMap)
    requires forall i :: 0 <= i < |codes| ==> NameChars(codes[i])
    ensures forall i :: 0 <= i < |SpanAttrs(codes, key, langs)| ==> NameOk(SpanAttrs(codes, key, langs)[i].name)
  {
    var all := SpanAttrs(codes, key, langs);
    FixedNamesOk();
    forall i | 2 <= i < |all| ensures NameOk(all[i].name) {
      assert all[i] == DataAttrs(codes, key, langs)[i - 2];
      DataNameOk(codes[i - 2]);
    }
  }

  lemma FixedNamesOk()
    ensures NameOk("class") && NameOk("data-i18n-key")
  {
    var a, b := "class", "data-i18n-key";
    assert forall k :: 0 <= k < |a| ==> NameChar(a[k]);
    assert forall k :: 0 <= k < |b| ==> NameChar(b[k]);
  }

  lemma DataNameOk(c: string)
    requires NameChars(c)
    ensures NameOk("data-" + c)
  {
    var n := "data-" + c;
    var d := "data-";
    assert forall k :: 0 <= k < 5 ==> n[k] == d[k] && NameChar(d[k]);
    assert forall k :: 5 <= k < |n| ==> n[k] == c[k - 5];
  }

  /**
    The output of `execute`: one fragment per translation key, then the
    `script` entry, which replaces a translation that is itself named
    `script`.
  */
  function Compiled(p: Settings): map<string, string> {
    Fragments(p, p.translations.Keys)["script" := ScriptText(p.supportedLangs)]
  }

  /** The fragments of the keys in `done`, as `execute` has written them so far. */
  function Fragments(p: Settings, done: set<string>): (m: map<string, string>)
    requires done <= p.translations.Keys
    ensures m.Keys == done
    ensures forall k :: k in done ==> m[k] == Fragment(p.supportedLangs, k, p.translations[k])
  {
    map k | k in done :: Fragment(p.supportedLangs, k, p.translations[k])
  }

  /** Writing one more key extends the fragments written so far by that key's fragment. */
  lemma FragmentsStep(p: Settings, done: set<string>, key: string)
    requires done <= p.translations.Keys && key in p.translations
    ensures Fragments(p, done + {key}) == Fragments(p, done)[key := Fragment(p.supportedLangs, key, p.translations[key])]
  {
    var f := Fragment(p.supportedLangs, key, p.translations[key]);
    var next, prev := Fragments(p, done + {key}), Fragments(p, done);
    MapStep(next, prev, key, f);
  }

  /** A map with one more key than another, agreeing elsewhere, is that one updated at the key. */
  lemma MapStep(next: map<string, string>, prev: map<string, string>, key: string, v: string)
    requires next.Keys == prev.Keys + {key} && key in next && next[key] == v
    requires forall k :: k in prev && k != key ==> next[k] == prev[k]
    ensures next == prev[key := v]
  {
  }

  /** `execute`: fills the output map key by key, then adds the script. */
  method Execute(p: Settings) returns (out: map<string, string>)
    ensures out == Compiled(p)
  {
    out := map[];
    var todo := p.translations.Keys;
    ghost var done: set<string> := {};
    while todo != {}
      invariant todo <= p.translations.Keys && done == p.translations.Keys - todo
      invariant out == Fragments(p, done)
      decreases todo
    {
      var key :| key in todo;
      FragmentsStep(p, done, key);
      out := out[key := Fragment(p.supportedLangs, key, p.translations[key])];
      todo := todo - {key};
      done := done + {key};
    }
    assert done == p.translations.Keys;
    out := out["script" := ScriptText(p.supportedLangs)];
  }

  /** The output's keys are exactly the translation keys plus `script`. */
  lemma CompiledKeys(p: Settings)
    ensures Compiled(p).Keys == p.translations.Keys + {"script"}
  {
  }

  /** Every key other than `script` maps to its own fragment; `script` maps to the script. */
  lemma CompiledEntries(p: Settings, key: string)
    requires key in p.translations && key != "script"
    ensures Compiled(p)[key] == Fragment(p.supportedLangs, key, p.translations[key])
    ensures Compiled(p)["script"] == ScriptText(p.supportedLangs)
  {
  }

  /** One entry per translation plus the script, one fewer when a translation is named `script`. */
  lemma CompiledSize(p: Settings)
    ensures "script" !in p.translations ==> |Compiled(p)| == |p.translations| + 1
    ensures "script" in p.translations ==> |Compiled(p)| == |p.translations|
  {
    CompiledKeys(p);
    KeysPlusOne(p.translations.Keys, "script");
  }

  lemma KeysPlusOne(keys: set<string>, x: string)
    ensures x !in keys ==> |keys + {x}| == |keys| + 1
    ensures x in keys ==> |keys + {x}| == |keys|
  {
    if x in keys {
      assert keys + {x} == keys;
    }
  }
}
