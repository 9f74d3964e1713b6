/**
 * The path rewrite of the language menu (src/components/languageToggle.tsx):
 * `pathname.replace(/^\/[^\/]+/, `/${locale}`)`, which swaps the first path
 * segment for the chosen locale and keeps the rest of the path.
 */
module LanguageToggle {

  /** The pattern matches: a `/` at the start followed by at least one character other than `/`. */
  predicate HasFirstSegment(path: string)
  {
    |path| >= 2 && path[0] == '/' && path[1] != '/'
  }

  /** Where the match of `^\/[^\/]+` ends: at the next `/` after the first one, or at the end. */
  function SegmentEnd(path: string, i: nat): (r: nat)
    requires 1 <= i <= |path|
    ensures i <= r <= |path|
    ensures forall k :: i <= k < r ==> path[k] != '/'
    ensures r == |path| || path[r] == '/'
    decreases |path| - i
  {
    if i == |path| || path[i] == '/' then i else SegmentEnd(path, i + 1)
  }

  /**
   * The replacement string of `String.prototype.replace` with its `$`
   * patterns expanded, for a match at the start of the string (so `` $` ``
   * is empty) and a pattern without capture groups (so `$1`, `$<` stay as
   * they are): `$$` is `$`, `$&` the matched text, `$'` the text after it.
   */
  function ExpandReplacement(template: string, matched: string, after: string): string
  {
    if |template| == 0 then ""
    else if template[0] == '$' && |template| >= 2 && template[1] in "$&`'" then
      var piece := if template[1] == '$' then "$" else if template[1] == '&' then matched
                   else if template[1] == '`' then "" else after;
      piece + ExpandReplacement(template[2..], matched, after)
    else [template[0]] + ExpandReplacement(template[1..], matched, after)
  }

  /** A template without `$` is inserted as it is. */
  lemma {:induction false} ExpandPlain(template: string, matched: string, after: string)
    requires '$' !in template
    ensures ExpandReplacement(template, matched, after) == template
  {
    if |template| > 0 {
      ExpandPlain(template[1..], matched, after);
      assert template == [template[0]] + template[1..];
    }
  }

  /** `switchLanguage(locale)`: the path `router.push` is given. */
  function SwitchLanguage(path: string, locale: string): string
  {
    if HasFirstSegment(path) then
      var n := SegmentEnd(path, 1);
      ExpandReplacement("/" + locale, path[..n], path[n..]) + path[n..]
    else path
  }

  /** A locale that can stand as a first segment and holds no replacement pattern. */
  predicate IsLocaleSegment(locale: string)
  {
    locale != "" && '/' !in locale && '$' !in locale
  }

  /** The match of a path `/seg` + `rest` ends exactly where `seg` does. */
  lemma SegmentEndOf(seg: string, rest: string)
    requires seg != "" && '/' !in seg
    requires rest == "" || rest[0] == '/'
    ensures var path := "/" + seg + rest;
            HasFirstSegment(path) && SegmentEnd(path, 1) == 1 + |seg| && path[1 + |seg|..] == rest
  {
    var path := "/" + seg + rest;
    assert path[1] == seg[0];
    assert path[1 + |seg|..] == rest;
  }

  /**
   * The first segment is replaced by the locale and the remainder of the
   * path is kept exactly: `/seg` + `rest` becomes `/locale` + `rest`.
   */
  lemma SwitchFirstSegment(seg: string, rest: string, locale: string)
    requires seg != "" && '/' !in seg
    requires rest == "" || rest[0] == '/'
    requires '$' !in locale
    ensures SwitchLanguage("/" + seg + rest, locale) == "/" + locale + rest
  {
    SegmentEndOf(seg, rest);
    ExpandPlain("/" + locale, "/" + seg, rest);
    assert '$' !in "/" + locale;
  }

  /** Every path the pattern matches is `/seg` + `rest` for a non-empty, slash-free `seg`. */
  lemma FirstSegmentSplit(path: string)
    requires HasFirstSegment(path)
    ensures var n := SegmentEnd(path, 1);
            var seg := path[1..n];
            var rest := path[n..];
            && path == "/" + seg + rest
            && seg != "" && '/' !in seg
            && (rest == "" || rest[0] == '/')
  {
    var n := SegmentEnd(path, 1);
    assert path == path[..1] + path[1..n] + path[n..];
    forall k | 0 <= k < n - 1
      ensures path[1..n][k] != '/'
    {
      assert path[1..n][k] == path[k + 1];
    }
  }

  /** Paths with no first segment (`""`, `"/"`, `"//x"`, `"x/y"`) are left as they are. */
  lemma SwitchWithoutSegment(path: string, locale: string)
    requires !HasFirstSegment(path)
    ensures SwitchLanguage(path, locale) == path
  {
  }

  /** Switching to `a` and then to `b` is switching to `b`. */
  lemma SwitchTwice(path: string, a: string, b: string)
    requires IsLocaleSegment(a) && '$' !in b
    ensures SwitchLanguage(SwitchLanguage(path, a), b) == SwitchLanguage(path, b)
  {
    if HasFirstSegment(path) {
      FirstSegmentSplit(path);
      var n := SegmentEnd(path, 1);
      var seg, rest := path[1..n], path[n..];
      SwitchFirstSegment(seg, rest, a);
      SwitchFirstSegment(a, rest, b);
      SwitchFirstSegment(seg, rest, b);
    }
  }

  /** Choosing the same locale twice changes nothing the second time. */
  lemma SwitchIdempotent(path: string, locale: string)
    requires IsLocaleSegment(locale)
    ensures SwitchLanguage(SwitchLanguage(path, locale), locale) == SwitchLanguage(path, locale)
  {
    SwitchTwice(path, locale, locale);
  }

  /** The menu's items: a label and the locale it switches to. */
  const MENU: seq<(string, string)> := [("English", "en"), ("日本語", "ja")]

  /** The two menu targets can stand as first segments, so the lemmas above apply to them. */
  lemma MenuTargets()
    ensures |MENU| == 2 && MENU[0].1 == "en" && MENU[1].1 == "ja"
    ensures forall k :: 0 <= k < |MENU| ==> IsLocaleSegment(MENU[k].1)
  {
    assert IsLocaleSegment("en") && IsLocaleSegment("ja");
  }
}
