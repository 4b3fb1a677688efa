/**
 * The page-language selector as the page runs it: a document whose <head>
 * and remaining nodes are updated in place, the three operations that
 * replace the style element, and the default language applied on load.
 */
module I18n {
  import opened Languages
  import opened Dom

  /** On this page exactly one language is hidden: the one that is not active. */
  lemma PageHidesOther(active: string)
    requires active in SupportedLanguages
    ensures HiddenLanguages(SupportedLanguages, active) == [if active == "en" then "ru" else "en"]
  {
    assert SupportedLanguages[1..] == ["en"];
    assert ["en"][1..] == [];
  }

  /**
   * The style text setLang produces for a requested language on this page:
   * 'en' hides Russian, and every other request, supported or not, resolves
   * to the default and hides English.
   */
  function StylesFor(language: string): (text: string)
    ensures language == "en" ==> text == HideRule("ru")
    ensures language != "en" ==> text == HideRule("en")
  {
    var active := ResolveLanguage(SupportedLanguages, DefaultLanguage, language);
    var hidden := if active == "en" then "ru" else "en";
    PageHidesOther(active);
    JoinedRulesOne(hidden);
    assert HideRule(hidden) + "" == HideRule(hidden);
    LanguageStyles(SupportedLanguages, active)
  }

  /**
   * The page setLang leaves behind, as a function of the page before, when at
   * most one node carries the style id: one style node, last in <head>,
   * holding the rule that hides the language not selected.
   */
  function SelectLanguage(p: Page, language: string): (q: Page)
    ensures CountId(Nodes(q), StyleElementId) == 1
    ensures q.head != [] && q.head[|q.head| - 1]
         == Node(StyleElementId, if language == "en" then HideRule("ru") else HideRule("en"))
  {
    ReplaceStyleSingleton(p, StylesFor(language));
    ReplaceStyle(p, StylesFor(language))
  }

  /**
   * Where getElementById finds the style element decides what is sliced out:
   * nothing when it finds none, otherwise the found node of head or of the
   * rest of the document; with at most one such node this is removing by id.
   */
  lemma RemoveFound(head: seq<Node>, body: seq<Node>, element: int)
    requires CountId(head + body, StyleElementId) <= 1
    requires element == IndexOf(Ids(head + body), StyleElementId)
    ensures element == -1 ==> Without(head, StyleElementId) == head && Without(body, StyleElementId) == body
    ensures 0 <= element < |head| ==>
              head[..element] + head[element + 1..] == Without(head, StyleElementId)
              && Without(body, StyleElementId) == body
    ensures element != -1 && |head| <= element ==>
              var k := element - |head|;
              k < |body| && body[..k] + body[k + 1..] == Without(body, StyleElementId)
              && Without(head, StyleElementId) == head
  {
    if element == -1 {
      NothingToRemove(head, body, StyleElementId);
    } else if element < |head| {
      assert head[element] == (head + body)[element];
      RemoveFromHead(head, body, element, StyleElementId);
    } else {
      var k := element - |head|;
      assert body[k] == (head + body)[element];
      RemoveFromBody(head, body, k, StyleElementId);
    }
  }

  /** A page whose id-bearing nodes were removed and a new one appended to head is the replacement. */
  lemma Installed(p: Page, q: Page, style: string)
    requires q.head == Without(p.head, StyleElementId) + [Node(StyleElementId, style)]
    requires q.body == Without(p.body, StyleElementId)
    ensures q == ReplaceStyle(p, style)
    ensures CountId(q.head + q.body, StyleElementId) == 1
    ensures q.head[..|q.head| - 1] == Without(p.head, StyleElementId)
  {
    ReplaceStyleSingleton(p, style);
    ReplaceStyleKeepsOthers(p, style);
  }

  class Document {
    /** The children of <head>, in order. */
    var head: seq<Node>
    /** Every other element of the document, in document order. */
    var body: seq<Node>

    /** At most one element carries the style id: the one the selector created. */
    ghost predicate Valid()
      reads this
    {
      CountId(head + body, StyleElementId) <= 1
    }

    /** The document as a value. */
    function State(): Page
      reads this
    {
      Page(head, body)
    }

    /**
     * Loading the script: the page as the browser built it, then
     * setLang(default_language) once.
     */
    constructor Load(initialHead: seq<Node>, initialBody: seq<Node>)
      requires CountId(initialHead + initialBody, StyleElementId) <= 1
      ensures Valid()
      ensures State() == SelectLanguage(Page(initialHead, initialBody), DefaultLanguage)
      ensures head != [] && head[|head| - 1] == Node(StyleElementId, ":lang(en) { display: none; }")
    {
      head := initialHead;
      body := initialBody;
      new;
      SetLang(DefaultLanguage);
      DefaultStyles();
    }

    /**
     * setLanguageStyles: remove the element with the style id if there is one
     * (the first in document order, as getElementById finds it), then append
     * a new one holding the text as the last child of <head>.
     */
    method SetLanguageStyles(style: string)
      requires Valid()
      modifies this
      ensures Valid()
      ensures State() == ReplaceStyle(old(State()), style)
      ensures CountId(head + body, StyleElementId) == 1
      ensures head != [] && head[|head| - 1] == Node(StyleElementId, style)
      ensures head[..|head| - 1] == Without(old(head), StyleElementId)
      ensures body == Without(old(body), StyleElementId)
    {
      var element := IndexOf(Ids(head + body), StyleElementId);
      RemoveFound(head, body, element);
      if element != -1 && element < |head| {
        head := head[..element] + head[element + 1..];
      } else if element != -1 {
        var k := element - |head|;
        body := body[..k] + body[k + 1..];
      }
      head := head + [Node(StyleElementId, style)];
      Installed(old(State()), State(), style);
    }

    /** setLangStyles: render the hide rules for the given language and install them. */
    method SetLangStyles(language: string)
      requires Valid()
      modifies this
      ensures Valid()
      ensures State() == ReplaceStyle(old(State()), LanguageStyles(SupportedLanguages, language))
    {
      var styles := LanguageStyles(SupportedLanguages, language);
      SetLanguageStyles(styles);
    }

    /**
     * setLang: the requested language if it is supported, the default
     * otherwise, and its hide rules installed as the only style element.
     */
    method SetLang(language: string)
      requires Valid()
      modifies this
      ensures Valid()
      ensures State() == SelectLanguage(old(State()), language)
      ensures CountId(head + body, StyleElementId) == 1
      ensures head != [] && head[|head| - 1] == Node(StyleElementId, StylesFor(language))
      ensures Without(head + body, StyleElementId) == Without(old(head + body), StyleElementId)
    {
      var found := IndexOf(SupportedLanguages, language) != -1;
      SetLangStyles(if found then language else DefaultLanguage);
      ReplaceStyleSingleton(old(State()), StylesFor(language));
      ReplaceStyleKeepsOthers(old(State()), StylesFor(language));
    }
  }

  /** The resolved language is always one the page supports. */
  lemma ResolvedIsSupported(language: string)
    ensures ResolveLanguage(SupportedLanguages, DefaultLanguage, language) in SupportedLanguages
  {
  }

  /**
   * Read back, the installed text names every supported language except the
   * active one: the active language stays visible and all others are hidden.
   */
  lemma StylesHideAllButActive(language: string, lang: string)
    requires lang in SupportedLanguages
    ensures var active := ResolveLanguage(SupportedLanguages, DefaultLanguage, language);
            && ParseStyles(StylesFor(language)).Some?
            && (lang in ParseStyles(StylesFor(language)).value <==> lang != active)
  {
    var active := ResolveLanguage(SupportedLanguages, DefaultLanguage, language);
    assert forall l :: l in SupportedLanguages ==> ')' !in l;
    ActiveNeverHidden(SupportedLanguages, active, lang);
  }

  /** Selecting the same language twice leaves the page of selecting it once. */
  lemma SetLangIdempotent(p: Page, language: string)
    requires CountId(Nodes(p), StyleElementId) <= 1
    ensures SelectLanguage(SelectLanguage(p, language), language) == SelectLanguage(p, language)
  {
    ReplaceStyleIdempotent(p, StylesFor(language));
  }

  /** Selecting a and then b leaves the page of selecting only b. */
  lemma SetLangOverwrite(p: Page, a: string, b: string)
    requires CountId(Nodes(p), StyleElementId) <= 1
    ensures SelectLanguage(SelectLanguage(p, a), b) == SelectLanguage(p, b)
  {
    ReplaceStyleOverwrite(p, StylesFor(a), StylesFor(b));
  }

  /** The rule that hides Russian, spelled out. */
  lemma RussianRule()
    ensures HideRule("ru") == ":lang(ru) { display: none; }"
  {
  }

  /** The rule that hides English, spelled out. */
  lemma EnglishRule()
    ensures HideRule("en") == ":lang(en) { display: none; }"
  {
  }

  /** Choosing English hides Russian. */
  lemma EnglishStyles()
    ensures StylesFor("en") == ":lang(ru) { display: none; }"
  {
    RussianRule();
  }

  /** The default, as applied on load, hides English. */
  lemma DefaultStyles()
    ensures StylesFor(DefaultLanguage) == ":lang(en) { display: none; }"
  {
    EnglishRule();
  }

  /**
   * An unsupported code, including one that differs only in case, falls back
   * to the default and so hides English.
   */
  lemma UnsupportedStyles()
    ensures StylesFor("fr") == ":lang(en) { display: none; }"
    ensures StylesFor("EN") == ":lang(en) { display: none; }"
    ensures StylesFor("") == ":lang(en) { display: none; }"
  {
    EnglishRule();
  }
}
