# I18n plugin: translation compiler and page-load language selection

This project models the `I18n` site-generator plugin (`plugins/I18n.rb`) in Dafny and proves properties of the model. The plugin has two halves.

- **Build time.** The constructor reads a configuration with defaults: `supported_langs` is `["en", "es"]` and `translations` is `{}` when either is missing. `execute` writes one empty `<span class="i18n" data-i18n-key="…" data-<lc>="…" …></span>` per translation key. Each `data-<lc>` value is resolved through the fallback chain `langs[lc] || langs['en'] || key` and HTML-escaped by `h`. The output map also gets one shared `script` entry, which embeds the supported list.
- **Page load.** The embedded script lower-cases the browser's preference. It picks the first supported code that is a plain string prefix of that preference, falling back to `en`, and sets the document's `lang` attribute to it. It runs inline, where the page places it, not on a load event. It then replaces the text of every `.i18n[data-i18n-key]` element parsed before it with `dataset[lang] || dataset.en || ''`.

Files and modules:

- `wrappers.dfy` (`Wrappers`): `Option`, standing for Ruby's `nil` and JavaScript's `undefined`.
- `strings.dfy` (`Strings`): searching and splitting strings (`IndexOf`, prefix facts), shared by the readers and the negotiation.
- `html.dfy` (`Html`):
  - `Escape`, which is `h` (CGI.escapeHTML), and its decoder `Unescape`, which undoes it: `Unescape(Escape(s)) == s`.
  - `Unescape` decodes the five character references `&amp; &lt; &gt; &quot; &#39;`, as in section 13.1.4 of the WHATWG HTML Standard.
  - The `Inert` predicate: no raw `<`, `>`, `"` or `'`, and every `&` begins a reference.
  - The attribute writer `Render`: `name="<escaped value>"`.
- `html_reader.dfy` (`HtmlReader`): a start-tag attribute reader. It is the reading side against which the written fragments are proved.
  - It is stricter than a browser's HTML tokenizer. It accepts only attribute names the tokenizer neither lower-cases, splits at, replaces nor flags: no ASCII upper-case letter, white space, `/`, `>`, `=`, `<`, `"`, `'` or NUL.
  - On the markup the plugin writes, where values are escaped by `h` and so hold only the five references, it reads the same names as a browser. It reads the same values except where a value holds CR or NUL: a browser's parser turns CR and CRLF into LF and NUL into U+FFFD before tokenizing, while the reader keeps them.
  - It also builds the map from names to values of the attributes it read, where the first occurrence of a name wins, as in a browser.
- `i18n.dfy` (`I18n`):
  - The constructor `New`, the fallback chain `Resolve`, and the per-key `Fragment`.
  - The specification `Compiled` of the output map.
  - `Execute`, the loop that fills the map key by key.
- `runtime.dfy` (`I18nRuntime`):
  - The preference, the negotiation and JavaScript truthiness.
  - Element records, and the rewrite as functions and as the `Page` class, whose methods work in place on an array of elements.
- `script.dfy` (`Script`): the script template with the supported list written into it, and the reading of that list back out of the script.
- `page_load.dfy` (`PageLoad`): build time and page load together. A fragment is read into an element and then rewritten by the script.

Behaviour of the code worth noting:

- An explicitly empty `supported_langs` is kept. Only a missing one gets the default (`||` tests for nil).
- A fragment carries one `data-<lc>` attribute per supported code and no extra default-language attribute. With no supported codes, the start tag ends in ` >`.
- A translation named `script` is replaced by the script, so the output then has `|translations|` entries, not `|translations| + 1`.
- In the browser, an empty attribute value is falsy. It falls through to `en` and then to `''`, not only a missing one. Ruby keeps an empty translation at build time.
- If the first supported code that matches is the empty string, the script selects `en`, because `find` returned a falsy value.
- Escaped text still contains `&`, but only at the start of one of the five references.

## Model

| member | source | states |
|---|---|---|
| `I18n.FirstConfig` | plugins/I18n.rb:17 | `data[0] \|\| {}`: the first argument when it is present, else a configuration with neither option set |
| `I18n.New` | plugins/I18n.rb:16-20 | an option given explicitly is kept (an empty list included); a missing `supported_langs` becomes `["en","es"]`, missing `translations` becomes `{}` |
| `I18n.Resolve` | plugins/I18n.rb:28 | the value for `lc` is `langs[lc]` when present (even `""`), else `langs['en']` when present, else the key itself, so it is never nil |
| `I18n.DataAttrs` | plugins/I18n.rb:27-30 | exactly one attribute per supported code, in the same order, named `data-<lc>` with the code unescaped and holding the resolved value |
| `I18n.AttrTexts` | plugins/I18n.rb:29 | each attribute is written as `name="<h(value)>"` |
| `I18n.JoinEnds` | plugins/I18n.rb:30 | `join(' ')` starts with the first item, puts a space right after it when there is more than one, and ends with the last item |
| `I18n.JoinSpaced` | plugins/I18n.rb:30 | `join(' ')` separates the written attributes by single spaces |
| `I18n.FragmentShape` | plugins/I18n.rb:32-33 | the fragment is `<span`, then the class, the escaped key and the language attributes each after one space, then `>` (or ` >` with no codes) and `</span>` with nothing in between |
| `I18n.FragmentReadsBack` | plugins/I18n.rb:26-33 | for codes whose characters a browser's tokenizer neither lower-cases, splits at, replaces nor flags in an attribute name, the strict attribute reader gets back from the fragment exactly the class `i18n`, the key and one `data-<lc>` per code in order with its resolved value, with an empty body; both key and values survive escaping |
| `I18n.Fragments` | plugins/I18n.rb:26-34 | after the keys in `done` are processed, `out` holds exactly those keys, each mapped to its own fragment |
| `I18n.FragmentsStep` | plugins/I18n.rb:26-34 | processing one more key adds exactly that key's fragment and leaves every other entry as it was |
| `I18n.Execute` | plugins/I18n.rb:22-54 | the loop that fills `out` key by key and then sets `script` yields exactly `Compiled` |
| `I18n.CompiledKeys` | plugins/I18n.rb:26-37 | the output's keys are exactly the raw (unescaped) translation keys plus `script` |
| `I18n.CompiledSize` | plugins/I18n.rb:26-37 | the output has `\|translations\| + 1` entries, or `\|translations\|` when a translation is named `script` |
| `I18n.CompiledEntries` | plugins/I18n.rb:32-37 | every key other than `script` maps to its own fragment; `script` maps to the script, overwriting any translation of that name |
| `Script.ScriptEmbedsLangs` | plugins/I18n.rb:40 | for codes without `"` or `<`, the array literal written into the script evaluates back to exactly the supported list |
| `Html.Escape` | plugins/I18n.rb:57 | escaping never shortens its input and maps only the empty string to the empty string |
| `Html.EscapeChar` | plugins/I18n.rb:57 | a character becomes a reference beginning with `&` exactly when it is one of `& < > " '`; others are kept |
| `Html.UnescapeEscape` | plugins/I18n.rb:57 | decoding the character references of `h(s)` yields `s` |
| `Html.EscapeInjective` | plugins/I18n.rb:57 | distinct strings are escaped to distinct texts |
| `Html.EscapeInert` | plugins/I18n.rb:57 | `h(s)` holds no raw `<`, `>`, `"` or `'`, and every `&` in it begins one of the five references |
| `Html.EscapeNoQuote` | plugins/I18n.rb:57 | `h(s)` holds no double quote, so it cannot end a quoted attribute value |
| `Html.EscapePlain` | plugins/I18n.rb:57 | a string free of the five special characters passes through `h` unchanged |
| `Html.EscapeAppend` | plugins/I18n.rb:57 | escaping works character by character: it distributes over concatenation |
| `Html.Unescape` | plugins/I18n.rb:57 | the reading side of `h`: decoding never lengthens a text, and a text without `&` is kept as it is |
| `Html.RenderQuoted` | plugins/I18n.rb:29 | a written attribute is its name, `=`, and the escaped value between two double quotes, with no double quote in between, so the value cannot end early |
| `Html.RenderDecodes` | plugins/I18n.rb:29 | decoding the text between the quotes of a written attribute gives back its value exactly |
| `I18nRuntime.JsOr` | plugins/I18n.rb:46 | JavaScript `\|\|` on strings: the left value when it is defined and non-empty, else the right one |
| `I18nRuntime.Lower` | plugins/I18n.rb:41 | lower-casing keeps the length, turns each ASCII upper-case letter into its own lower-case letter (code point + 32) and keeps every other character |
| `I18nRuntime.Preference` | plugins/I18n.rb:41 | the preference is `navigator.language`, else `navigator.userLanguage` (each only when non-empty), else `en`, lower-cased; it is never empty |
| `I18nRuntime.PreferenceExamples` | plugins/I18n.rb:41 | `es-MX` becomes `es-mx`; with neither property the preference is `en`; an empty `navigator.language` falls through |
| `I18nRuntime.FindPrefix` | plugins/I18n.rb:42 | `find` yields the first code that is a prefix of the preference, and nothing only when no code is |
| `I18nRuntime.Negotiate` | plugins/I18n.rb:42 | the language is the first matching code when that is non-empty, `en` when that code is `""` or when none matches; it is always `en` or a supported code, and a prefix of the preference unless `en` |
| `I18nRuntime.NegotiateRegional` | plugins/I18n.rb:42 | with `["en","es","zh"]`, preference `es-mx` selects `es` |
| `I18nRuntime.NegotiateUnsupported` | plugins/I18n.rb:42 | with `["en","es","zh"]`, preference `fr` selects `en` |
| `I18nRuntime.NegotiateNoBoundary` | plugins/I18n.rb:42 | there is no boundary at `-`: preference `est` selects `es` |
| `I18nRuntime.NegotiateEmptyCode` | plugins/I18n.rb:42 | an empty code matches every preference but is falsy, so the result is `en` |
| `I18nRuntime.Data` | plugins/I18n.rb:46 | `dataset[name]` is defined exactly when the element has the attribute `data-<name>`, and then holds its value |
| `I18nRuntime.Shown` | plugins/I18n.rb:46 | the text is `dataset[lang]` when non-empty, else `dataset.en` when non-empty, else `''`; non-empty text always comes from one of the two |
| `I18nRuntime.Rewritten` | plugins/I18n.rb:45-47 | only elements matching `.i18n[data-i18n-key]` get new text; classes and attributes never change |
| `I18nRuntime.RewriteAll` | plugins/I18n.rb:45-48 | the rewrite treats each element on its own, in document order |
| `I18nRuntime.RewrittenIgnoresText` | plugins/I18n.rb:46-47 | the new text depends only on the element's attributes, never on its current text |
| `I18nRuntime.RewriteIdempotent` | plugins/I18n.rb:45-48 | running the rewrite a second time changes nothing |
| `I18nRuntime.Page.RewriteElements` | plugins/I18n.rb:45-48 | the `forEach` loop leaves the element array equal to `RewriteAll` of its old contents |
| `I18nRuntime.Page.Run` | plugins/I18n.rb:40-48 | after the script, the document's `lang` is the negotiated language and the elements present when the script runs are rewritten for it |
| `PageLoad.FragmentElement` | plugins/I18n.rb:29-33 | the element read from a fragment matches the script's selector, and `dataset[name]` holds the resolved value, as written by `h` (CR, CRLF and NUL kept), exactly for supported codes |
| `PageLoad.ExpectedText` | plugins/I18n.rb:46 | the shown text is empty or one of the resolved values for the language or for `en` |
| `PageLoad.ShownFor` | plugins/I18n.rb:46 | an element that matches the selector and carries the fragment's attributes for the language and for `en` shows the expected text |
| `PageLoad.ShownAfterLoad` | plugins/I18n.rb:26-48 | end to end: a compiled fragment, after the script has run with any browser preferences, shows the resolved translation for the negotiated language if that is supported and non-empty, else the English one if supported and non-empty, else nothing, whatever its text was before; values are taken as written, with CR, CRLF and NUL kept |

## Left out

- `preview.rb` is not part of this model. It builds the site, prints, exits on failure and serves files over HTTP, all of which is I/O.
- The `Plugin` base class and the plugin registry are not part of this model. Construction is modelled from the argument list `data`, of which only the first element is read.
- Configuration values are modelled as strings, lists of strings and maps of strings. Ruby's `to_s` of other values, entries that are explicitly `nil` or `false`, and a translation entry that is not a hash are not modelled. A string entry is searched as a substring by `langs[lc]`, so `"Bienvenidos"` yields `"en"` for `en`; nil, arrays and integers raise. A missing key is the only way a value is absent.
- Hash iteration order is not modelled. `Execute` takes the translation keys in any order and is proved to give the same map for every order. The insertion order of the Ruby output hash is not represented.
- `Script.ScriptText`: the script is modelled as its template with the list inserted. Ruby's `String#inspect` escaping of codes that contain quotes, backslashes or non-printing characters is not modelled.
- `I18nRuntime.Lower` lower-cases ASCII letters only, not the full Unicode case mapping of `toLowerCase`.
- Browser APIs are abstract inputs and outputs. The navigator properties are optional strings, and the document is a `Page` holding its `lang` and an array of element records. `dataset[name]` is modelled as the attribute `data-<name>`. The camel-case mapping of hyphenated names, under which `dataset['zh-tw']` is undefined, is not modelled. An unsupported browser that leaves the default text in place is not modelled either.
- The class list of an element read from markup is split at single spaces only.
- `I18n.FragmentReadsBack` requires codes made only of characters a browser's tokenizer neither lower-cases, splits at, replaces nor flags in an attribute name: no ASCII upper-case letter, white space, `/`, `>`, `=`, `<`, `"`, `'` or NUL. The plugin writes codes into attribute names unescaped. A browser lower-cases or splits such names, so code `EN` is read as `data-en` and `dataset.en` is defined, and a code with `=` or `>` breaks the tag.
- `PageLoad.FragmentElement` has the same requirement on the codes, for the same reason. It also gives each value as `h` wrote it: a browser's `dataset` holds LF where the value has CR or CRLF, and U+FFFD where it has NUL. The parser's newline and NUL normalisation is not modelled.
- `PageLoad.ShownAfterLoad` has the same requirement on the codes, for the same reason. With code `EN` and preference `fr`, a browser shows the English value where the strict reader finds no attribute. It also shows values as `h` wrote them: with `{"en": "a\r\nb"}` a browser shows `a\nb`, because its parser normalises CR, CRLF and NUL and this is not modelled. A hyphenated code such as `zh-tw` is negotiated, but a browser then finds `dataset['zh-tw']` undefined and falls back to `dataset.en`, while the lemma shows the `zh-tw` value; the camel-case mapping of `dataset` is not modelled.
- `PageLoad.FragmentElement` requires a `name` other than `i18n-key`, and `PageLoad.ShownAfterLoad` requires that no code is `i18n-key`. Otherwise the attribute `data-i18n-key` is written twice, and the browser keeps the first one, the key.
- `Script.ScriptEmbedsLangs` requires codes without `"`, because the array literal is modelled without escapes. It also requires codes without `<`: Ruby's `inspect` escapes neither `<` nor `/`, and a browser ends the script element at the first `</script`, in any case. With code `x</script>` the browser runs only `(function(){ var supported = ["x`, a syntax error, so no `lang` is set and nothing is rewritten.
- `I18nRuntime.Page.Run`: the script is inline, with no load listener, so `querySelectorAll` sees only the i18n elements parsed before the script. Where the page places the script decides which elements are rewritten: a fragment after it keeps its empty body, and a script in `<head>` rewrites nothing. The model takes `elements` as the elements present when the script runs, and does not model the parse order that produces them.
