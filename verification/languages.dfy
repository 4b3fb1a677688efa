/**
 * The pure half of the page-language selector: choosing the active language
 * (setLang) and rendering the rules that hide every other language
 * (setLangStyles). The functions take the supported list and the default as
 * parameters, so that what they promise is proved for every list, including
 * empty ones and ones with duplicates; the page itself uses the constants
 * below.
 */
module Languages {

  datatype Option<T> = None | Some(value: T)

  /** The languages the page is written in, in the order their rules are emitted. */
  const SupportedLanguages: seq<string> := ["ru", "en"]

  /** The language used when the requested one is not supported. */
  const DefaultLanguage: string := "ru"

  /** The two fixed halves of one hide rule, around the language code. */
  const RulePrefix: string := ":lang("
  const RuleSuffix: string := ") { display: none; }"

  /**
   * Array.prototype.indexOf with strict equality: the index of the first
   * occurrence of x in s, or -1 when there is none.
   */
  function IndexOf<T(==)>(s: seq<T>, x: T): (r: int)
    ensures -1 <= r < |s|
    ensures r == -1 <==> x !in s
    ensures 0 <= r ==> s[r] == x && x !in s[..r]
  {
    if s == [] then -1
    else if s[0] == x then 0
    else
      var k := IndexOf(s[1..], x);
      assert k >= 0 ==> s[..k + 1] == [s[0]] + s[1..][..k];
      if k == -1 then -1 else k + 1
  }

  /** Any index holding the first occurrence of x is the one IndexOf reports. */
  lemma IndexOfFirst<T>(s: seq<T>, x: T, k: nat)
    requires k < |s| && s[k] == x && x !in s[..k]
    ensures IndexOf(s, x) == k
  {
  }

  /**
   * The language setLang activates: the requested code when it occurs in the
   * supported list (exact, case-sensitive comparison), otherwise the default.
   */
  function ResolveLanguage(supported: seq<string>, default: string, language: string): (active: string)
    ensures language in supported ==> active == language
    ensures language !in supported ==> active == default
    ensures default in supported ==> active in supported
  {
    if IndexOf(supported, language) != -1 then language else default
  }

  /** Resolving an already resolved language changes nothing. */
  lemma ResolveIdempotent(supported: seq<string>, default: string, language: string)
    ensures var active := ResolveLanguage(supported, default, language);
            ResolveLanguage(supported, default, active) == active
  {
  }

  /** An unsupported request behaves exactly like a request for the default. */
  lemma UnsupportedIsDefault(supported: seq<string>, default: string, language: string)
    requires language !in supported
    ensures ResolveLanguage(supported, default, language)
         == ResolveLanguage(supported, default, default)
  {
  }

  /**
   * The filter step of setLangStyles: every supported code that differs from
   * the active one, duplicates kept, in list order. The multiset equation says
   * each other code keeps its multiplicity and the active one has none left.
   */
  function HiddenLanguages(supported: seq<string>, active: string): (hidden: seq<string>)
    ensures multiset(hidden) == multiset(supported)[active := 0]
    ensures active !in hidden
    ensures forall l :: l in supported && l != active ==> l in hidden
    ensures forall l :: l in hidden ==> l in supported
  {
    if supported == [] then []
    else
      var rest := HiddenLanguages(supported[1..], active);
      assert supported == [supported[0]] + supported[1..];
      assert multiset(supported) == multiset{supported[0]} + multiset(supported[1..]);
      if supported[0] == active then rest else [supported[0]] + rest
  }

  /** Filtering distributes over concatenation: the order of the list is kept. */
  lemma {:induction false} HiddenAppend(xs: seq<string>, ys: seq<string>, active: string)
    ensures HiddenLanguages(xs + ys, active)
         == HiddenLanguages(xs, active) + HiddenLanguages(ys, active)
  {
    if xs == [] {
      assert xs + ys == ys;
    } else {
      assert (xs + ys)[1..] == xs[1..] + ys;
      HiddenAppend(xs[1..], ys, active);
    }
  }

  /**
   * The map step of setLangStyles: the rule that hides one language, the
   * code between the fixed prefix and suffix.
   */
  function HideRule(lang: string): (rule: string)
    ensures |rule| == |RulePrefix| + |lang| + |RuleSuffix|
    ensures rule[0] == ':' && rule[|rule| - 1] == '}'
  {
    RulePrefix + lang + RuleSuffix
  }

  /** Distinct codes give distinct rules, so a rule names exactly one language. */
  lemma HideRuleInjective(a: string, b: string)
    requires HideRule(a) == HideRule(b)
    ensures a == b
  {
    var n := |RulePrefix|;
    assert a == HideRule(a)[n..n + |a|];
    assert b == HideRule(b)[n..n + |b|];
  }

  /** The map step of setLangStyles: one hide rule per language, in the same order. */
  function HideRules(langs: seq<string>): (rules: seq<string>)
    ensures |rules| == |langs|
    ensures forall i :: 0 <= i < |langs| ==> rules[i] == HideRule(langs[i])
  {
    if langs == [] then [] else [HideRule(langs[0])] + HideRules(langs[1..])
  }

  /** Different lists of codes give different lists of rules. */
  lemma {:induction false} HideRulesInjective(xs: seq<string>, ys: seq<string>)
    requires HideRules(xs) == HideRules(ys)
    ensures xs == ys
  {
    if xs != [] {
      HideRuleInjective(xs[0], ys[0]);
      HideRulesInjective(xs[1..], ys[1..]);
    }
  }

  /**
   * Array.prototype.join: the parts with sep between neighbours, "" for no
   * parts. A non-empty join starts with the first part and ends with the last.
   */
  function Join(parts: seq<string>, sep: string): (joined: string)
    ensures parts == [] ==> joined == ""
    ensures parts != [] ==> |parts[0]| <= |joined| && joined[..|parts[0]|] == parts[0]
    ensures parts != [] ==>
              var last := parts[|parts| - 1];
              |last| <= |joined| && joined[|joined| - |last|..] == last
  {
    if parts == [] then ""
    else if |parts| == 1 then parts[0]
    else
      var rest := Join(parts[1..], sep);
      assert (parts[0] + sep + rest)[|parts[0] + sep + rest| - |parts[|parts| - 1]|..]
          == rest[|rest| - |parts[|parts| - 1]|..];
      parts[0] + sep + rest
  }

  /** A join of two or more parts is the first part, the separator, and the join of the rest. */
  lemma JoinCons(parts: seq<string>, sep: string)
    requires |parts| > 1
    ensures Join(parts, sep) == parts[0] + (sep + Join(parts[1..], sep))
  {
    ConcatAssoc(parts[0], sep, Join(parts[1..], sep));
  }

  /** Appending one part adds one separator and that part at the end. */
  lemma {:induction false} JoinAppend(parts: seq<string>, last: string, sep: string)
    requires parts != []
    ensures Join(parts + [last], sep) == Join(parts, sep) + sep + last
  {
    var all := parts + [last];
    if |parts| == 1 {
      assert all[1..] == [last];
    } else {
      assert all[1..] == parts[1..] + [last];
      JoinAppend(parts[1..], last, sep);
      var front := parts[0] + sep;
      var rest := Join(parts[1..], sep);
      assert Join(all, sep) == front + (rest + sep + last);
      assert Join(parts, sep) == front + rest;
      ConcatAssoc(front, rest + sep, last);
      ConcatAssoc(front, rest, sep);
    }
  }

  /**
   * The text setLangStyles hands to setLanguageStyles: empty exactly when no
   * code is hidden, and otherwise starting with the first rule's ':' and
   * ending with the last rule's '}', so with no leading or trailing separator.
   */
  function LanguageStyles(supported: seq<string>, active: string): (text: string)
    ensures text == "" <==> HiddenLanguages(supported, active) == []
    ensures text != "" ==> text[0] == ':' && text[|text| - 1] == '}'
  {
    Join(HideRules(HiddenLanguages(supported, active)), " ")
  }

  /** The text is empty exactly when no supported code differs from the active one. */
  lemma StylesEmptyIff(supported: seq<string>, active: string)
    ensures LanguageStyles(supported, active) == ""
        <==> forall l :: l in supported ==> l == active
  {
    var hidden := HiddenLanguages(supported, active);
    if hidden != [] {
      assert hidden[0] in hidden;
      var rules := HideRules(hidden);
      assert |Join(rules, " ")| >= |rules[0]|;
    }
  }

  /** What setLangStyles renders, stated rule by rule over the supported list. */
  lemma StylesAppend(supported: seq<string>, lang: string, active: string)
    ensures var before := LanguageStyles(supported, active);
            (LanguageStyles(supported + [lang], active)
             == if lang == active then before
                else if before == "" then HideRule(lang)
                else before + " " + HideRule(lang))
  {
    HiddenAppend(supported, [lang], active);
    var hidden := HiddenLanguages(supported, active);
    if lang != active {
      assert HiddenLanguages([lang], active) == [lang];
      HideRulesAppend(hidden, lang);
      if hidden != [] {
        JoinAppend(HideRules(hidden), HideRule(lang), " ");
      }
    } else {
      assert HiddenLanguages([lang], active) == [];
      assert hidden + [] == hidden;
    }
  }

  /** Mapping distributes over appending one code. */
  lemma {:induction false} HideRulesAppend(langs: seq<string>, lang: string)
    ensures HideRules(langs + [lang]) == HideRules(langs) + [HideRule(lang)]
  {
    if langs != [] {
      assert (langs + [lang])[1..] == langs[1..] + [lang];
      HideRulesAppend(langs[1..], lang);
    }
  }

  /**
   * Reads a rule text back into the languages it hides: the inverse of
   * rendering, for codes without a ')'. Every rule is the prefix, a code up
   * to the first ')', the rest of the suffix, then either the end or one
   * space and the next rule.
   */
  function ParseStyles(text: string): Option<seq<string>>
  {
    if text == "" then Some([]) else ParseRules(text)
  }

  /** Reads one rule at the start of the text: its code and what follows it. */
  function ParseRule(text: string): (r: Option<(string, string)>)
    ensures r.Some? ==> |r.value.1| < |text|
  {
    if |text| < |RulePrefix| || text[..|RulePrefix|] != RulePrefix then None
    else
      var rest := text[|RulePrefix|..];
      var k := IndexOf(rest, ')');
      if k == -1 then None
      else
        var after := rest[k..];
        if |after| < |RuleSuffix| || after[..|RuleSuffix|] != RuleSuffix then None
        else Some((rest[..k], after[|RuleSuffix|..]))
  }

  /** Reads one or more space-separated rules that make up the whole text. */
  function ParseRules(text: string): Option<seq<string>>
    decreases |text|
  {
    match ParseRule(text)
    case None => None
    case Some((lang, tail)) =>
      if tail == "" then Some([lang])
      else if tail[0] != ' ' then None
      else match ParseRules(tail[1..])
        case None => None
        case Some(langs) => Some([lang] + langs)
  }

  /** Splitting a concatenation at the length of its first part gives both parts back. */
  lemma SplitAt(a: string, b: string)
    ensures (a + b)[..|a|] == a && (a + b)[|a|..] == b
  {
  }

  /** Concatenation of strings is associative. */
  lemma ConcatAssoc(a: string, b: string, c: string)
    ensures a + b + c == a + (b + c)
  {
  }

  /** One rule followed by any tail reads back as its code and that tail. */
  lemma ParseOneRule(lang: string, tail: string)
    requires ')' !in lang
    ensures ParseRule(HideRule(lang) + tail) == Some((lang, tail))
  {
    var rest := lang + (RuleSuffix + tail);
    assert HideRule(lang) + tail == RulePrefix + rest;
    SplitAt(RulePrefix, rest);
    SplitAt(lang, RuleSuffix + tail);
    IndexOfFirst(rest, ')', |lang|);
    SplitAt(RuleSuffix, tail);
  }

  /** The joined rules of two or more codes split into the first rule and the joined rest. */
  lemma JoinedRulesCons(langs: seq<string>)
    requires |langs| > 1
    ensures Join(HideRules(langs), " ")
         == HideRule(langs[0]) + (" " + Join(HideRules(langs[1..]), " "))
  {
    var rules := HideRules(langs);
    assert rules[1..] == HideRules(langs[1..]);
    JoinCons(rules, " ");
  }

  /** The joined rules of one code are that code's rule. */
  lemma JoinedRulesOne(lang: string)
    ensures Join(HideRules([lang]), " ") == HideRule(lang) + ""
  {
    assert HideRules([lang]) == [HideRule(lang)];
    assert HideRule(lang) + "" == HideRule(lang);
  }

  /** A rule, one space and a readable text read back as the rule's code and that text's codes. */
  lemma ParseRuleThenMore(lang: string, more: string, langs: seq<string>)
    requires ')' !in lang
    requires ParseRules(more) == Some(langs)
    ensures ParseRules(HideRule(lang) + (" " + more)) == Some([lang] + langs)
  {
    var tail := " " + more;
    assert tail != "" && tail[0] == ' ' && tail[1..] == more;
    ParseOneRule(lang, tail);
  }

  /** The rules of a non-empty list of codes without ')' read back as that list. */
  lemma {:induction false} ParseJoinedRules(langs: seq<string>)
    requires langs != []
    requires forall l :: l in langs ==> ')' !in l
    ensures ParseRules(Join(HideRules(langs), " ")) == Some(langs)
  {
    var lang := langs[0];
    assert lang in langs;
    if |langs| == 1 {
      assert langs == [lang];
      JoinedRulesOne(lang);
      ParseOneRule(lang, "");
    } else {
      var others := langs[1..];
      assert langs == [lang] + others;
      JoinedRulesCons(langs);
      ParseJoinedRules(others);
      ParseRuleThenMore(lang, Join(HideRules(others), " "), others);
    }
  }

  /**
   * Round trip: the text setLangStyles renders reads back as exactly the
   * supported codes other than the active one, in list order.
   */
  lemma StylesRoundTrip(supported: seq<string>, active: string)
    requires forall l :: l in supported ==> ')' !in l
    ensures ParseStyles(LanguageStyles(supported, active))
         == Some(HiddenLanguages(supported, active))
  {
    var hidden := HiddenLanguages(supported, active);
    if hidden != [] {
      ParseJoinedRules(hidden);
    }
  }

  /**
   * The text has a rule for a supported code exactly when that code is not the
   * active one: the active language is never hidden, every other one is.
   */
  lemma ActiveNeverHidden(supported: seq<string>, active: string, lang: string)
    requires forall l :: l in supported ==> ')' !in l
    requires lang in supported
    ensures ParseStyles(LanguageStyles(supported, active)).Some?
    ensures lang in ParseStyles(LanguageStyles(supported, active)).value <==> lang != active
  {
    StylesRoundTrip(supported, active);
  }
}
