# Page-language selector, modelled in Dafny

The page script `scripts/i18n.js` shows a static page in one language at a time.
The page's text is written in Russian and English, and each element is marked
with a `lang` attribute. `setLang(language)` resolves the requested code against
the supported list `['ru', 'en']` and falls back to the default `'ru'` when the
code is not in the list. `setLangStyles` then renders one
`:lang(<code>) { display: none; }` rule for every other supported code.
`setLanguageStyles` installs that text as the only `<style id="__current_lang_styles">`
element: it removes the old one and appends the new one to `<head>`. The
script calls `setLang(default_language)` once when it loads.

The project has three modules:

- `Languages` (`languages.dfy`) holds the pure half of the script:
  - `indexOf` as `IndexOf`;
  - the supported/default choice as `ResolveLanguage`;
  - the filter, map and join of `setLangStyles` as `HiddenLanguages`, `HideRules` (the rule `HideRule` for each code) and `Join`, combined in `LanguageStyles`;
  - `ParseStyles`, a reader that inverts the rendering. The round-trip lemmas use it to state, at the level of the text, which languages the text hides.

  These functions take the supported list and the default as parameters, so their lemmas hold for any list, including empty lists and lists with duplicates. The exception is the read-back lemmas (`ParseJoinedRules`, `StylesRoundTrip`, `ActiveNeverHidden`), which require codes that contain no ')'.
- `Dom` (`dom.dfy`) models the document as values. A `Node` is an (id, text) record. A `Page` holds the children of `<head>` and then every other element, in document order. `ReplaceStyle` is the page that `setLanguageStyles` leaves behind when at most one node carries `__current_lang_styles`. The lemmas beside it state the singleton, "nothing else changes", overwrite and idempotence properties.
- `I18n` (`i18n.dfy`) holds the class `Document`. Its `head` and `body` sequence fields are updated in place by `SetLanguageStyles`, `SetLangStyles` and `SetLang`. The named constructor `Load` is the script's load-time `setLang(default_language)`. Each method's `ensures` ties the new state to `ReplaceStyle` / `SelectLanguage` of the old state. `StylesFor` and `SelectLanguage` are the text and the page that `setLang` produces on this page. The module also has the concrete scenarios for `['ru', 'en']`.

Three behaviours of the code, stated precisely:

- With no `<head>`, `document.getElementsByTagName('head')[0]` is `undefined`, and `appendChild` throws. In the model a document always has a head (see Left out).
- The rule text is empty exactly when every supported code equals the active one. That happens for a list of at most one entry, but also for a list such as `['ru', 'ru']`. `Languages.StylesEmptyIff` states the condition the code actually implements.
- The filter drops every entry equal to the active code, so duplicates of the active code are all dropped. Duplicates of another code each get their own rule.

## Model

| member | source | states |
|---|---|---|
| `Languages.IndexOf` | scripts/i18n.js:25 | the result is -1 exactly when the value is absent; otherwise it is an index holding the value, with no occurrence before it |
| `Languages.ResolveLanguage` | scripts/i18n.js:24-27 | a supported code (exact, case-sensitive match) is kept; any other code becomes the default; if the default is supported, the result always is |
| `Languages.ResolveIdempotent` | scripts/i18n.js:24-27 | for any list and default, resolving an already resolved language returns it unchanged |
| `Languages.UnsupportedIsDefault` | scripts/i18n.js:24-27 | a request for an unsupported code behaves exactly like a request for the default |
| `Languages.HiddenLanguages` | scripts/i18n.js:46-47 | the hidden codes are the supported ones with every copy of the active code removed and every other code at its original multiplicity; the active code is never among them |
| `Languages.HiddenAppend` | scripts/i18n.js:46-47 | filtering distributes over concatenation, so list order is kept |
| `Languages.HideRule` | scripts/i18n.js:48 | the rule for one code: the fixed prefix `:lang(`, the code, then `) { display: none; }`; it is 26 characters longer than the code, starts with ':' and ends with '}' |
| `Languages.HideRules` | scripts/i18n.js:48 | the map step, defined recursively: as many rules as codes, and the rule at each position is the hide rule of the code at that position |
| `Languages.HideRulesInjective` | scripts/i18n.js:48 | different lists of codes give different lists of rules |
| `Languages.HideRulesAppend` | scripts/i18n.js:48 | mapping a list extended by one code adds that code's rule at the end |
| `Languages.HideRuleInjective` | scripts/i18n.js:48 | different codes give different rules |
| `Languages.Join` | scripts/i18n.js:49 | Array.prototype.join: "" for no parts; otherwise the text starts with the first part and ends with the last |
| `Languages.JoinAppend` | scripts/i18n.js:49 | appending a part to a non-empty list adds exactly one separator and then the part |
| `Languages.StylesEmptyIff` | scripts/i18n.js:46-49 | the rule text is empty if and only if no supported code differs from the active one |
| `Languages.LanguageStyles` | scripts/i18n.js:46-49 | the text built from the filtered, mapped and joined codes is empty exactly when no code is hidden; otherwise it starts with ':' and ends with '}', so there is no leading or trailing separator |
| `Languages.StylesAppend` | scripts/i18n.js:46-49 | rule text for a list extended by one code: unchanged if the code is active, otherwise that code's rule is added at the end, after one space when text was already there |
| `Languages.ParseJoinedRules` | scripts/i18n.js:48-49 | the space-joined rules of a non-empty list of codes without ')' read back as that list |
| `Languages.StylesRoundTrip` | scripts/i18n.js:46-49 | reading the rendered text back gives exactly the hidden codes, in supported-list order |
| `Languages.ActiveNeverHidden` | scripts/i18n.js:46-49 | a supported code has a rule in the text if and only if it is not the active code |
| `Dom.Without` | scripts/i18n.js:66-69 | removing the nodes that carry an id drops as many nodes as carry it and leaves none with that id |
| `Dom.WithoutKeeps` | scripts/i18n.js:66-69 | a node survives the removal if and only if it was present and does not carry the id |
| `Dom.CountIdZero` | scripts/i18n.js:66 | no node is counted exactly when the id is absent from the ids the lookup scans |
| `Dom.RemoveUnique` | scripts/i18n.js:66-68 | when at most one node carries the id, removing the one found at its index is the same as removing every node with that id |
| `Dom.WithoutAbsent` | scripts/i18n.js:67 | when no node carries the id, nothing is removed |
| `Dom.RemoveFromHead` | scripts/i18n.js:66-68 | when the element found by id is at index i of head and is the only one with the id, slicing it out of head removes every node with the id, and the body loses nothing |
| `Dom.RemoveFromBody` | scripts/i18n.js:66-68 | the same when the element found by id is in the rest of the document: slicing it out there removes every node with the id, and head loses nothing |
| `Dom.NothingToRemove` | scripts/i18n.js:66-67 | when the lookup finds nothing, neither head nor the rest of the document loses a node |
| `Dom.ReplaceStyle` | scripts/i18n.js:60-85 | the page left behind: the last child of head is the new node holding the text; the page loses as many nodes as carried the id and gains one; no other node carries the id |
| `Dom.ReplaceStyleSingleton` | scripts/i18n.js:65-85 | after a replacement exactly one node carries the style id; it is the last child of head and holds the given text |
| `Dom.ReplaceStyleKeepsOthers` | scripts/i18n.js:66-85 | only nodes with the style id are removed and only the new node is appended; every other node keeps its content and relative order |
| `Dom.ReplaceStyleOverwrite` | scripts/i18n.js:60-85 | on a page where at most one node carries the id, replacing with a and then b leaves the same page as replacing with b alone |
| `Dom.ReplaceStyleIdempotent` | scripts/i18n.js:60-85 | on a page where at most one node carries the id, replacing twice with the same text leaves the page of one replacement |
| `I18n.StylesFor` | scripts/i18n.js:24-27 | the text setLang installs on this page: 'en' hides Russian (`HideRule("ru")`); every other request, supported or not, hides English |
| `I18n.SelectLanguage` | scripts/i18n.js:24-27 | the page setLang leaves behind: exactly one node carries the style id, the last child of head, holding the rule that hides the language not selected |
| `I18n.RemoveFound` | scripts/i18n.js:66-68 | when the lookup finds nothing, nothing is removed; when it finds the only id-bearing node in head or in the rest of the document, slicing that node out is removing by id, and the other part loses nothing |
| `I18n.Document.SetLanguageStyles` | scripts/i18n.js:60-86 | removes the element found by id, wherever it is in the document, and appends the new one to head; the new state is the replacement of the old one: one id-bearing node, last in head, holding the text; the rest of head and the body lose only the old node |
| `I18n.Document.SetLangStyles` | scripts/i18n.js:38-52 | installs the rendered hide rules for the given language as the replacement of the old state |
| `I18n.Document.SetLang` | scripts/i18n.js:24-27 | the new state is the old state with the resolved language's rules installed: one style node, last in head, holding those rules; every other node unchanged |
| `I18n.Document.Load` | scripts/i18n.js:14 | after loading, the default language has been applied, and the style node holds `:lang(en) { display: none; }` |
| `I18n.ResolvedIsSupported` | scripts/i18n.js:24-27 | on this page the resolved language is always 'ru' or 'en' |
| `I18n.StylesHideAllButActive` | scripts/i18n.js:46-49 | on this page, every supported language except the resolved one has a rule, and the resolved one has none |
| `I18n.SetLangIdempotent` | scripts/i18n.js:24-27 | on a page where at most one node carries the style id, calling setLang twice with the same code leaves the page of calling it once |
| `I18n.SetLangOverwrite` | scripts/i18n.js:24-27 | on a page where at most one node carries the style id, setLang(a) followed by setLang(b) leaves the page of setLang(b) alone |
| `I18n.EnglishStyles` | scripts/i18n.js:4-49 | selecting 'en' yields `:lang(ru) { display: none; }` |
| `I18n.DefaultStyles` | scripts/i18n.js:4-49 | applying the default 'ru' yields `:lang(en) { display: none; }` |
| `I18n.UnsupportedStyles` | scripts/i18n.js:4-49 | 'fr', 'EN' and the empty string all fall back to the default and yield `:lang(en) { display: none; }` |

## Left out

- I18n.Document.SetLanguageStyles: requires that at most one element carries `__current_lang_styles` (`Valid()`). `getElementById` returns only the first match, so with duplicate ids the code removes just one element and leaves the others. The model does not describe that state.
- Dom.ReplaceStyleOverwrite, Dom.ReplaceStyleIdempotent, I18n.SetLangIdempotent, I18n.SetLangOverwrite: these are stated only for pages where at most one node carries `__current_lang_styles`. With two such nodes, the code removes only the first on each call. For example, on a head `[X1, X2]`, `setLang(a); setLang(b)` leaves `[A, B]`, while `setLang(b)` alone leaves `[X2, B]`.
- `setLang()` with no argument, or with a non-string argument (`undefined`, `null`, a number): `indexOf` returns -1 for these, so the code uses the default. The parameter is a string in the model, so such calls cannot be expressed. They would resolve as any unsupported code does.
- A document without `<head>`: the code throws at `appendChild`. In the model a document always has a head, so this case cannot be represented.
- The `styleSheet.cssText` and `createTextNode` branches and the `type = 'text/css'` attribute are browser-specific ways of setting the same text. The model sets the node's text in one step.
- The DOM is flattened to two sequences of (id, text) records: head, then every other element. Nesting, other attributes, and node identity are not modelled.
- `getElementById`, `remove`, `createElement` and `getElementsByTagName` are foreign calls. They are modelled as sequence operations: the first index whose id matches, a slice that drops one position, a new record, and an append to the head sequence.
- CSS semantics: how `:lang()` matches elements and what the browser renders are outside the model. The model stops at the rule text and the node sequences.
- Load-time hoisting: the line-14 call runs during script evaluation, relying on JavaScript function hoisting. It is modelled as the explicit constructor `Load`.
- Languages.StylesRoundTrip: the read-back holds only for codes without ')'. For other codes the rule text can be ambiguous. Both of the page's codes satisfy this.
