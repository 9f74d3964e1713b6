/**
 * The "Other languages" card of an article page
 * (src/components/articleTranslationsCard.tsx): which translations it lists,
 * with which label and link, and when it renders nothing.
 */
module TranslationsCard {
  import opened Wrappers
  import opened JsArray

  /** A value of the article record: `slug` and `date` are strings, each locale key holds title and excerpt. */
  datatype Field = Text(text: string) | Info(title: string, excerpt: string)

  /** An article record as its entries in `Object.keys` order. */
  type ArticleRecord = seq<(string, Field)>

  /** The keys of a record, in order. */
  function Keys(data: ArticleRecord): (r: seq<string>)
    ensures |r| == |data|
    ensures forall i :: 0 <= i < |data| ==> r[i] == data[i].0
  {
    seq(|data|, i requires 0 <= i < |data| => data[i].0)
  }

  /** The keys of a JavaScript object are distinct. */
  ghost predicate DistinctKeys(data: ArticleRecord)
  {
    forall i, j :: 0 <= i < j < |data| ==> data[i].0 != data[j].0
  }

  /** The position of the first occurrence of `k` in `keys`, or `|keys|` when it is absent. */
  function KeyIndex(keys: seq<string>, k: string): (r: nat)
    ensures r <= |keys|
    ensures r < |keys| ==> keys[r] == k
    ensures forall i :: 0 <= i < r ==> keys[i] != k
  {
    if |keys| == 0 then 0
    else if keys[0] == k then 0
    else 1 + KeyIndex(keys[1..], k)
  }

  /** `s` lists keys of `keys` in the order they appear there. */
  predicate InKeyOrder(keys: seq<string>, s: seq<string>)
  {
    forall i, j :: 0 <= i < j < |s| ==> KeyIndex(keys, s[i]) < KeyIndex(keys, s[j])
  }

  /** `data[key]` for a key of the record. */
  function Lookup(data: ArticleRecord, key: string): Option<Field>
  {
    if |data| == 0 then None
    else if data[0].0 == key then Some(data[0].1)
    else Lookup(data[1..], key)
  }

  predicate IsLocaleKey(k: string)
  {
    k != "slug" && k != "date"
  }

  /** `Object.keys(data).filter((k) => k !== "slug" && k !== "date")`. */
  function Locales(data: ArticleRecord): seq<string>
  {
    Filter(IsLocaleKey, Keys(data))
  }

  /** The result of `displayNames.of(code)`: a name, `undefined`, or a thrown `RangeError`. */
  datatype NameLookup = Name(name: string) | Undefined | Threw

  /** `Intl.DisplayNames` when the runtime has it: a foreign lookup, given as a function. */
  type DisplayNames = Option<string -> NameLookup>

  /** The labels used when `Intl.DisplayNames` is missing or throws. */
  function FallbackLabel(locale: string): (r: string)
    ensures locale == "en" ==> r == "English"
    ensures locale == "ja" ==> r == "Japanese"
    ensures locale != "en" && locale != "ja" ==> r == locale
  {
    if locale == "en" then "English" else if locale == "ja" then "Japanese" else locale
  }

  /** `getLocaleLabel(locale)`: the display name, `locale` when it is `undefined`, the fallback when it throws. */
  function LocaleLabel(names: DisplayNames, locale: string): string
  {
    if names.Some? then
      match names.value(locale)
      case Name(n) => n
      case Undefined => locale
      case Threw => FallbackLabel(locale)
    else FallbackLabel(locale)
  }

  /** `${info.title}` in the aria-label template: a value without a title prints `undefined`. */
  function TitleText(field: Option<Field>): string
  {
    if field.Some? && field.value.Info? then field.value.title else "undefined"
  }

  predicate IsInfo(field: Option<Field>)
  {
    field.Some? && field.value.Info?
  }

  /** `{info.title}` as a JSX child: a missing title renders no text. */
  function TitleShown(field: Option<Field>): string
  {
    if field.Some? && field.value.Info? then field.value.title else ""
  }

  /** `/${locale}/articles/${slug}`. */
  function Href(locale: string, slug: string): string
  {
    "/" + locale + "/articles/" + slug
  }

  /** One item of the list: its key, link, aria-label and the caption and title it shows. */
  datatype Item = Item(locale: string, href: string, ariaLabel: string, caption: string, title: string)

  function MakeItem(names: DisplayNames, data: ArticleRecord, slug: string, locale: string): Item
  {
    var caption := LocaleLabel(names, locale);
    var info := Lookup(data, locale);
    Item(locale, Href(locale, slug), caption + ": " + TitleText(info), caption, TitleShown(info))
  }

  /** `locales.filter((l) => l !== currentLocale)`. */
  function OtherLocales(data: ArticleRecord, currentLocale: string): seq<string>
  {
    Filter((l: string) => l != currentLocale, Locales(data))
  }

  /** The card's list, or `None` when the component returns `null`. */
  function Card(articles: map<string, ArticleRecord>, slug: string, currentLocale: string, names: DisplayNames): Option<seq<Item>>
  {
    if slug !in articles then None
    else
      var data := articles[slug];
      var locales := Locales(data);
      if |locales| <= 1 then None
      else
        var others := OtherLocales(data, currentLocale);
        if |others| == 0 then None
        else Some(seq(|others|, i requires 0 <= i < |others| => MakeItem(names, data, slug, others[i])))
  }

  // ---------------------------------------------------------------------------
  // Properties
  // ---------------------------------------------------------------------------

  /** With distinct keys, a key's position is where it stands. */
  lemma KeyIndexAt(data: ArticleRecord, i: int)
    requires DistinctKeys(data)
    requires 0 <= i < |data|
    ensures KeyIndex(Keys(data), data[i].0) == i
  {
    var r := KeyIndex(Keys(data), data[i].0);
    assert r <= i;
  }

  /** With distinct keys, the keys themselves are in key order. */
  lemma KeysInKeyOrder(data: ArticleRecord)
    requires DistinctKeys(data)
    ensures Pairwise((a: string, b: string) => KeyIndex(Keys(data), a) < KeyIndex(Keys(data), b), Keys(data))
  {
    var keys := Keys(data);
    forall i, j | 0 <= i < j < |keys|
      ensures KeyIndex(keys, keys[i]) < KeyIndex(keys, keys[j])
    {
      KeyIndexAt(data, i);
      KeyIndexAt(data, j);
    }
  }

  /** The locales are exactly the keys other than `slug` and `date`, in key order. */
  lemma LocalesAreLocaleKeys(data: ArticleRecord)
    ensures forall k :: k in Locales(data) <==> k in Keys(data) && IsLocaleKey(k)
    ensures multiset(Locales(data)) <= multiset(Keys(data))
    ensures DistinctKeys(data) ==> InKeyOrder(Keys(data), Locales(data))
  {
    var keys := Keys(data);
    if DistinctKeys(data) {
      KeysInKeyOrder(data);
      FilterKeepsPairwise(IsLocaleKey, keys, (a: string, b: string) => KeyIndex(keys, a) < KeyIndex(keys, b));
    }
    forall k | k in keys && IsLocaleKey(k)
      ensures k in Locales(data)
    {
      FilterMultiset(IsLocaleKey, keys, k);
    }
    forall k
      ensures multiset(Locales(data))[k] <= multiset(keys)[k]
    {
      FilterMultiset(IsLocaleKey, keys, k);
    }
  }

  /** Removing a value that occurs at most once removes at most one element. */
  lemma {:induction false} FilterOutOnce(s: seq<string>, x: string)
    requires multiset(s)[x] <= 1
    ensures |Filter((l: string) => l != x, s)| >= |s| - 1
  {
    if |s| > 0 {
      assert s == [s[0]] + s[1..];
      FilterOutOnce(s[1..], x);
      if s[0] == x {
        assert multiset(s[1..])[x] == 0;
        FilterAll((l: string) => l != x, s[1..]);
      }
    }
  }

  lemma {:induction false} KeysCountOnce(data: ArticleRecord, x: string)
    requires DistinctKeys(data)
    ensures multiset(Keys(data))[x] <= 1
  {
    if |data| > 0 {
      var tail := data[1..];
      assert DistinctKeys(tail) by {
        forall i, j | 0 <= i < j < |tail| ensures tail[i].0 != tail[j].0 {
          assert tail[i] == data[i + 1] && tail[j] == data[j + 1];
        }
      }
      KeysCountOnce(tail, x);
      assert Keys(data) == [data[0].0] + Keys(tail);
      if data[0].0 == x {
        assert x !in Keys(tail) by {
          forall i | 0 <= i < |tail| ensures Keys(tail)[i] != x {
            assert tail[i] == data[i + 1];
          }
        }
      }
    }
  }

  /**
   * Once there are two locales or more, some locale differs from the current
   * one, so the `otherLocales.length === 0` test never returns.
   */
  lemma OtherLocalesNonEmpty(data: ArticleRecord, currentLocale: string)
    requires DistinctKeys(data)
    requires |Locales(data)| > 1
    ensures |OtherLocales(data, currentLocale)| >= |Locales(data)| - 1 >= 1
  {
    KeysCountOnce(data, currentLocale);
    LocalesAreLocaleKeys(data);
    FilterOutOnce(Locales(data), currentLocale);
  }

  /**
   * The card renders nothing exactly when the slug is unknown or the article
   * has at most one locale.
   */
  lemma CardAbsentIff(articles: map<string, ArticleRecord>, slug: string, currentLocale: string, names: DisplayNames)
    requires slug in articles ==> DistinctKeys(articles[slug])
    ensures Card(articles, slug, currentLocale, names).None? <==>
              slug !in articles || |Locales(articles[slug])| <= 1
  {
    if slug in articles && |Locales(articles[slug])| > 1 {
      OtherLocalesNonEmpty(articles[slug], currentLocale);
    }
  }

  /**
   * One item per locale other than the current one, in key order, each
   * linking to that locale's version of the article and labelled by it.
   */
  lemma CardItems(articles: map<string, ArticleRecord>, slug: string, currentLocale: string, names: DisplayNames)
    requires Card(articles, slug, currentLocale, names).Some?
    ensures var items := Card(articles, slug, currentLocale, names).value;
            var others := OtherLocales(articles[slug], currentLocale);
            && |items| == |others|
            && (forall i :: 0 <= i < |items| ==>
                  && items[i].locale == others[i]
                  && items[i].href == "/" + others[i] + "/articles/" + slug
                  && items[i].caption == LocaleLabel(names, others[i])
                  && items[i].title == TitleShown(Lookup(articles[slug], others[i]))
                  && items[i].ariaLabel == items[i].caption + ": " + TitleText(Lookup(articles[slug], others[i]))
                  && (IsInfo(Lookup(articles[slug], others[i])) ==> items[i].ariaLabel == items[i].caption + ": " + items[i].title))
            && (forall l :: l in others <==> l in Locales(articles[slug]) && l != currentLocale)
            && (DistinctKeys(articles[slug]) ==> InKeyOrder(Keys(articles[slug]), others))
  {
    var locales := Locales(articles[slug]);
    var p := (l: string) => l != currentLocale;
    if DistinctKeys(articles[slug]) {
      var keys := Keys(articles[slug]);
      LocalesAreLocaleKeys(articles[slug]);
      FilterKeepsPairwise(p, locales, (a: string, b: string) => KeyIndex(keys, a) < KeyIndex(keys, b));
    }
    forall l | l in locales && l != currentLocale
      ensures l in OtherLocales(articles[slug], currentLocale)
    {
      FilterMultiset(p, locales, l);
    }
  }

  /** Without `Intl.DisplayNames`, or when it throws, the labels are English, Japanese or the code. */
  lemma FallbackLabels(names: DisplayNames, locale: string)
    requires names.None? || names.value(locale) == Threw
    ensures LocaleLabel(names, locale) == FallbackLabel(locale)
  {
  }
}
