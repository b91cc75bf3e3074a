/**
 * The translation module (js/modules/i18n/index.js): the supported-language
 * guard, the current language and its pack, `t` with `{param}`
 * substitution, and the rewriting of `data-i18n` attributes in an HTML
 * string. The language packs are inputs; which strings they hold does not
 * matter to any rule here.
 */
module I18n {
  import opened Common
  import opened Text

  /** The keys of `SUPPORTED_LANGUAGES` and `LANGUAGE_PACKS`. */
  const SupportedLanguages: set<string> := {"zh-CN", "zh-TW", "en"}

  const DefaultLanguage: string := "zh-CN"

  /** One language pack: translation key to text. */
  type Pack = map<string, string>

  /** `translations[key] || key`: the pack's text when present and non-empty, else the key. */
  function Lookup(pack: Pack, key: string): (r: string)
    ensures key in pack && pack[key] != [] ==> r == pack[key]
    ensures key !in pack || pack[key] == [] ==> r == key
  {
    if key in pack && pack[key] != [] then pack[key] else key
  }

  /** The literal text `{name}` that the parameter `name` replaces. */
  function Placeholder(name: string): (r: string)
    ensures |r| == |name| + 2 && r[0] == '{' && r[|r| - 1] == '}'
  {
    "{" + name + "}"
  }

  /** Each parameter in order replaces every occurrence of its placeholder in the current text. */
  function Substitute(text: string, params: seq<(string, string)>): string
    decreases |params|
  {
    if params == [] then text
    else Substitute(ReplaceAll(text, Placeholder(params[0].0), params[0].1), params[1..])
  }

  /** `t(key, params)` over the current pack. */
  function Translate(pack: Pack, key: string, params: seq<(string, string)>): string
  {
    Substitute(Lookup(pack, key), params)
  }

  /** Parameters whose placeholders do not occur leave the text as it is. */
  lemma {:induction false} SubstituteAbsent(text: string, params: seq<(string, string)>)
    requires forall k :: 0 <= k < |params| ==> !Contains(text, Placeholder(params[k].0))
    ensures Substitute(text, params) == text
    decreases |params|
  {
    if params != [] {
      ReplaceAllAbsent(text, Placeholder(params[0].0), params[0].1);
      SubstituteAbsent(text, params[1..]);
    }
  }

  /**
   * Every occurrence of a placeholder is replaced, wherever and however often
   * it stands in the text: the text is pieces free of '{' joined by the
   * placeholder, and the result is the same pieces joined by the value.
   */
  lemma PlaceholderEverywhere(parts: seq<string>, name: string, value: string)
    requires forall k, j :: 0 <= k < |parts| && 0 <= j < |parts[k]| ==> parts[k][j] != '{'
    ensures Substitute(Join(parts, Placeholder(name)), [(name, value)]) == Join(parts, value)
  {
    ReplaceAllJoin(parts, Placeholder(name), value);
  }

  /** A key the pack lacks (or maps to '') comes back as itself when no parameter applies. */
  lemma MissingKeyIsItself(pack: Pack, key: string, params: seq<(string, string)>)
    requires key !in pack || pack[key] == []
    requires forall k :: 0 <= k < |params| ==> !Contains(key, Placeholder(params[k].0))
    ensures Translate(pack, key, params) == key
  {
    SubstituteAbsent(key, params);
  }

  /** The module state `currentLanguage` / `translations`, with the packs it chooses from. */
  class Locale {
    var currentLanguage: string
    var translations: Pack
    const packs: map<string, Pack>

    /** The current pack is always the current language's. */
    predicate Valid()
      reads this
    {
      packs.Keys == SupportedLanguages && currentLanguage in packs && translations == packs[currentLanguage]
    }

    constructor (packs: map<string, Pack>)
      requires packs.Keys == SupportedLanguages
      ensures Valid() && this.packs == packs
      ensures currentLanguage == DefaultLanguage
    {
      this.packs := packs;
      currentLanguage := DefaultLanguage;
      translations := packs[DefaultLanguage];
    }

    /** `t(key, params)` with the current pack. */
    function T(key: string, params: seq<(string, string)>): string
      reads this
    {
      Translate(translations, key, params)
    }

    /**
     * `changeLanguage(language)`: an unsupported code returns false and
     * changes nothing; a supported one switches language and pack together.
     * `stored` says whether the storage round trip that follows succeeds;
     * when it throws the function returns false although the switch has
     * already happened.
     */
    method ChangeLanguage(language: string, stored: bool) returns (ok: bool)
      requires Valid()
      modifies this
      ensures Valid()
      ensures ok <==> language in SupportedLanguages && stored
      ensures language in SupportedLanguages ==> currentLanguage == language
      ensures language !in SupportedLanguages ==>
        currentLanguage == old(currentLanguage) && translations == old(translations)
    {
      if language !in packs {
        return false;
      }
      currentLanguage := language;
      translations := packs[language];
      ok := stored;
    }

    /**
     * `initI18n`: a stored language is adopted only when it is supported;
     * otherwise the current one stays. The result is the current language.
     */
    method InitI18n(storedLanguage: Option<string>) returns (language: string)
      requires Valid()
      modifies this
      ensures Valid() && language == currentLanguage
      ensures storedLanguage.Some? && storedLanguage.value in SupportedLanguages ==>
        currentLanguage == storedLanguage.value
      ensures !(storedLanguage.Some? && storedLanguage.value in SupportedLanguages) ==>
        currentLanguage == old(currentLanguage) && translations == old(translations)
    {
      if storedLanguage.Some? && storedLanguage.value != [] && storedLanguage.value in packs {
        currentLanguage := storedLanguage.value;
        translations := packs[currentLanguage];
      }
      language := currentLanguage;
    }
  }

  /**
   * An attribute pattern of `applyI18nToHTML`: `open`, a non-empty key up
   * to `keyEnd`, `middle`, a non-empty value up to `valueEnd`, `close`.
   */
  datatype Shape = Shape(open: string, keyEnd: char, middle: string, valueEnd: char, close: string)
  {
    /** The literal after each captured group starts with the character that ends it. */
    predicate WellFormed()
    {
      |open| > 0 && |middle| > 0 && middle[0] == keyEnd && |close| > 0 && close[0] == valueEnd
    }
  }

  /** `/data-i18n="([^"]+)">([^<]+)</g`. */
  const TextShape: Shape := Shape("data-i18n=\"", '"', "\">", '<', "<")

  /** `/data-i18n-placeholder="([^"]+)" placeholder="([^"]+)"/g`. */
  const PlaceholderShape: Shape := Shape("data-i18n-placeholder=\"", '"', "\" placeholder=\"", '"', "\"")

  lemma ShapesWellFormed()
    ensures TextShape.WellFormed() && PlaceholderShape.WellFormed()
  {
  }

  /** The longest prefix of `s` without `c`: what `[^c]+` consumes. */
  function SpanUntil(s: string, c: char): (r: string)
    ensures |r| <= |s|
  {
    if s == [] || s[0] == c then [] else [s[0]] + SpanUntil(s[1..], c)
  }

  lemma {:induction false} SpanUntilOf(a: string, b: string, c: char)
    requires forall i :: 0 <= i < |a| ==> a[i] != c
    requires |b| > 0 && b[0] == c
    ensures SpanUntil(a + b, c) == a
  {
    if a != [] {
      assert (a + b)[1..] == a[1..] + b;
      SpanUntilOf(a[1..], b, c);
    }
  }

  /** The value group and the closing literal: the length they consume. */
  function MatchValue(s: string, sh: Shape): (r: Option<nat>)
    ensures r.Some? ==> 0 < r.value <= |s|
  {
    var value := SpanUntil(s, sh.valueEnd);
    if |value| == 0 || !StartsWith(s[|value|..], sh.close) then None
    else
      StartsWithIsOccursAt(s[|value|..], sh.close);
      Some(|value| + |sh.close|)
  }

  /** The key group, the middle literal and the rest: the key and the length consumed. */
  function MatchKey(s: string, sh: Shape): (r: Option<(string, nat)>)
    ensures r.Some? ==> 0 < r.value.1 <= |s|
  {
    var key := SpanUntil(s, sh.keyEnd);
    if |key| == 0 || !StartsWith(s[|key|..], sh.middle) then None
    else
      StartsWithIsOccursAt(s[|key|..], sh.middle);
      match MatchValue(s[|key| + |sh.middle|..], sh)
      case None => None
      case Some(n) => Some((key, |key| + |sh.middle| + n))
  }

  /** A match of the pattern at the start of `s`: its key and the length it consumes. */
  function MatchAt(s: string, sh: Shape): (r: Option<(string, nat)>)
    ensures r.Some? ==> 0 < r.value.1 <= |s|
  {
    if !StartsWith(s, sh.open) then None
    else
      StartsWithIsOccursAt(s, sh.open);
      match MatchKey(s[|sh.open|..], sh)
      case None => None
      case Some((key, n)) => Some((key, |sh.open| + n))
  }

  /** The text of one attribute with the given key and value. */
  function Attribute(sh: Shape, key: string, value: string): string
  {
    sh.open + key + sh.middle + value + sh.close
  }

  lemma AttributeParts(sh: Shape, key: string, value: string, post: string)
    ensures Attribute(sh, key, value) + post == sh.open + (key + (sh.middle + (value + (sh.close + post))))
    ensures |Attribute(sh, key, value)| == |sh.open| + |key| + |sh.middle| + |value| + |sh.close|
  {
  }

  lemma MatchValueOf(sh: Shape, value: string, post: string)
    requires sh.WellFormed()
    requires |value| > 0 && forall i :: 0 <= i < |value| ==> value[i] != sh.valueEnd
    ensures MatchValue(value + (sh.close + post), sh) == Some(|value| + |sh.close|)
  {
    var s := value + (sh.close + post);
    SpanUntilOf(value, sh.close + post, sh.valueEnd);
    assert s[|value|..] == sh.close + post;
    StartsWithConcat(sh.close, post);
  }

  lemma MatchKeyOf(sh: Shape, key: string, tail: string, n: nat)
    requires sh.WellFormed()
    requires |key| > 0 && forall i :: 0 <= i < |key| ==> key[i] != sh.keyEnd
    requires MatchValue(tail, sh) == Some(n)
    ensures MatchKey(key + (sh.middle + tail), sh) == Some((key, |key| + |sh.middle| + n))
  {
    var rest := sh.middle + tail;
    var s := key + rest;
    SpanUntilOf(key, rest, sh.keyEnd);
    assert s[|key|..] == rest;
    StartsWithConcat(sh.middle, tail);
    assert s[|key| + |sh.middle|..] == tail;
  }

  lemma MatchAtOf(sh: Shape, tail: string, key: string, n: nat)
    requires sh.WellFormed()
    requires MatchKey(tail, sh) == Some((key, n))
    ensures MatchAt(sh.open + tail, sh) == Some((key, |sh.open| + n))
  {
    StartsWithConcat(sh.open, tail);
    assert (sh.open + tail)[|sh.open|..] == tail;
  }

  /** A global regex replacement: each match keeps its key and gets `tr(key)` as its value. */
  function Rewrite(s: string, sh: Shape, tr: string -> string): string
    decreases |s|
  {
    if s == [] then []
    else
      match MatchAt(s, sh)
      case Some((key, n)) => Attribute(sh, key, tr(key)) + Rewrite(s[n..], sh, tr)
      case None => [s[0]] + Rewrite(s[1..], sh, tr)
  }

  /** `applyI18nToHTML`: element texts first, then placeholders, each through `t(key)`. */
  function ApplyI18nToHTML(html: string, pack: Pack): string
  {
    var t := (key: string) => Translate(pack, key, []);
    Rewrite(Rewrite(html, TextShape, t), PlaceholderShape, t)
  }

  lemma RewriteMatched(s: string, sh: Shape, tr: string -> string, key: string, n: nat)
    requires s != [] && MatchAt(s, sh) == Some((key, n))
    ensures Rewrite(s, sh, tr) == Attribute(sh, key, tr(key)) + Rewrite(s[n..], sh, tr)
  {
  }

  lemma RewriteUnmatched(s: string, sh: Shape, tr: string -> string)
    requires s != [] && MatchAt(s, sh).None?
    ensures Rewrite(s, sh, tr) == [s[0]] + Rewrite(s[1..], sh, tr)
  {
  }

  /** The match at the start of an attribute: its key and its whole length. */
  lemma MatchAttribute(sh: Shape, key: string, value: string, post: string)
    requires sh.WellFormed()
    requires |key| > 0 && forall i :: 0 <= i < |key| ==> key[i] != sh.keyEnd
    requires |value| > 0 && forall i :: 0 <= i < |value| ==> value[i] != sh.valueEnd
    ensures MatchAt(Attribute(sh, key, value) + post, sh) == Some((key, |Attribute(sh, key, value)|))
    ensures (Attribute(sh, key, value) + post)[|Attribute(sh, key, value)|..] == post
  {
    AttributeParts(sh, key, value, post);
    MatchValueOf(sh, value, post);
    var vtail := value + (sh.close + post);
    MatchKeyOf(sh, key, vtail, |value| + |sh.close|);
    MatchAtOf(sh, key + (sh.middle + vtail), key, |key| + |sh.middle| + |value| + |sh.close|);
  }

  /** A well-formed attribute keeps its key and receives the translation of that key as its value. */
  lemma RewriteAttribute(sh: Shape, key: string, value: string, post: string, tr: string -> string)
    requires sh.WellFormed()
    requires |key| > 0 && forall i :: 0 <= i < |key| ==> key[i] != sh.keyEnd
    requires |value| > 0 && forall i :: 0 <= i < |value| ==> value[i] != sh.valueEnd
    ensures Rewrite(Attribute(sh, key, value) + post, sh, tr) == Attribute(sh, key, tr(key)) + Rewrite(post, sh, tr)
  {
    MatchAttribute(sh, key, value, post);
    RewriteMatched(Attribute(sh, key, value) + post, sh, tr, key, |Attribute(sh, key, value)|);
  }

  lemma ConsConcat(s: string, r: string)
    requires s != []
    ensures s + r == [s[0]] + (s[1..] + r)
  {
  }

  /** Text in which the pattern's first character never occurs is copied unchanged. */
  lemma {:induction false} RewritePlain(s: string, post: string, sh: Shape, tr: string -> string)
    requires sh.WellFormed()
    requires forall i :: 0 <= i < |s| ==> s[i] != sh.open[0]
    ensures Rewrite(s + post, sh, tr) == s + Rewrite(post, sh, tr)
    decreases |s|
  {
    if s == [] {
      assert s + post == post;
    } else {
      var x := s + post;
      assert x[0] == s[0] && x[1..] == s[1..] + post;
      assert !StartsWith(x, sh.open);
      RewriteUnmatched(x, sh, tr);
      RewritePlain(s[1..], post, sh, tr);
      ConsConcat(s, Rewrite(post, sh, tr));
    }
  }
}
