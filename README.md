# tatmius.net blog: the Atom feed pipeline and small UI rules, in Dafny

This project models the parts of the tatmius.net blog that hold logic of their own.

- **The Atom 1.0 serialiser** (`src/lib/atom.ts`). XML escaping of free text is a chain of five global replacements. `buildAtomFeed` grows a list of lines: header, optional author block, one block per entry with a nested loop over its links. It then joins the lines with newlines.
- **The feed generator** (`scripts/generate-feeds.ts`). It builds a combined feed and one feed per locale (`ja`, `en`) from the article index. The index is sorted newest first. Each build makes one pass that collects the entries and tracks the newest date. `main` then writes `out/feed.xml`, `out/<locale>/feed.xml` and `out/_headers`.
- **The routing decision of the preview server** (`scripts/serve-out.mjs`). It covers request normalisation, segment splitting, the traversal guard, the Atom override, file, directory index, root index and 404. It also covers the `MIME` table and the port default.
- **The "Other languages" card** (`src/components/articleTranslationsCard.tsx`). This is locale selection, labels and links.
- **The language menu's path rewrite** (`src/components/languageToggle.tsx`).
- **The flash card's visibility state** (`src/components/flash-card/flash-card.tsx`). This is the mode effect, the click toggles and the width ratio.

## How the code is modelled

Shared pieces:
- `Wrappers` holds `Option`.
- `JsString` holds JavaScript's `Array.prototype.join` and `String.prototype.split` on one character, and the string `<` on strings.
- `JsArray` holds `filter`.

The code that grows arrays in loops is written as methods with loops:
- `Atom.BuildAtomFeed` with `PushEntry` and `PushLinks`;
- `GenerateFeeds.CollectCombined` and `CollectLocale`;
- `GenerateFeeds.ExportTree.RunGenerator`, with its loop over the locales.

Each of these methods is proved equal to a specification function: `RenderFeed`, `CombinedEntries`, `LocaleEntries`, `LatestDate` and `Generate`. The properties are then proved about those functions.

The file system is the class `ExportTree`. It holds a set of directories and a map from file paths to contents. `writeFileSync` fails when the parent directory is missing, and the failure model is explicit: `main` stops at the first failed write. The flash card is the class `FlashCard.Card`, whose fields are the `mode` prop and the two `useState` flags. The router, the card, the path rewrite and the escaping are pure functions.

Parameters stand in for what the code reads from the environment:
- the three readings of `new Date().toISOString()`, one per feed build (`Clock`);
- `BASE_URL`;
- the article index, in `Object.entries` order;
- the number `Number(process.env.PORT)`;
- `Intl.DisplayNames`, as an optional function.

## Model

| member | source | states |
|---|---|---|
| Atom.EscapeXmlIsCharwise | src/lib/atom.ts:28-35 | the chain of five global replacements equals escaping each character on its own: `&`, `<`, `>`, `"`, `'` become their entities and every other character stays |
| Atom.EscapeXmlNoMarkup | src/lib/atom.ts:28-35 | the escaped text contains no raw `<`, `>`, `"` or `'` |
| Atom.EscapeXmlAmpersands | src/lib/atom.ts:30-34 | because `&` is replaced first, every `&` in the output starts one of `&amp;` `&lt;` `&gt;` `&quot;` `&apos;` |
| Atom.EscapeXmlRoundTrip | src/lib/atom.ts:30-34 | decoding the five entities recovers the input exactly |
| Atom.EscapeXmlIdentity | src/lib/atom.ts:28-35 | text with none of the five markup characters is returned unchanged |
| Atom.EscapeXmlConcat | src/lib/atom.ts:28-35 | escaping distributes over concatenation |
| Atom.BuildAtomFeed | src/lib/atom.ts:39-77 | the document the loops build equals the header lines, the author lines, each entry's lines in input order and `</feed>`, joined by newlines |
| Atom.PushEntry | src/lib/atom.ts:56-73 | one pass of the entry loop appends exactly that entry's block |
| Atom.PushLinks | src/lib/atom.ts:63-71 | the inner loop appends one `<link>` line per link, in order |
| Atom.RenderFeedLayout | src/lib/atom.ts:40-47 | the document is the joined header lines (declaration, root tag, escaped title, id, updated, self link), a newline and the rest; it ends with a newline and `</feed>`, with nothing after it |
| Atom.FeedEntryCount | src/lib/atom.ts:56-73 | among the lines the document joins, exactly as many are `<entry>` and `</entry>` as there are input entries, so nothing is filtered |
| Atom.FeedEntryAt | src/lib/atom.ts:56-73 | the k-th entry block sits between the blocks of the entries before it and after it, so the input order is kept |
| Atom.AuthorBlockIff | src/lib/atom.ts:49-54 | the `<author>` block appears if and only if the metadata has an author |
| Atom.AuthorUriIff | src/lib/atom.ts:51 | the `<uri>` line appears if and only if the author's uri is present and non-empty |
| Atom.AuthorEmailIff | src/lib/atom.ts:52 | the `<email>` line appears if and only if the author's email is present and non-empty |
| Atom.EntryPublishedIff | src/lib/atom.ts:61 | an entry has a `<published>` line if and only if `published` is present and non-empty |
| Atom.EntryLayout | src/lib/atom.ts:57-72 | an entry's lines are the start tag, then escaped id, title and updated, then, exactly when `published` is present and non-empty, the line with the escaped published value, the summary line, one link line per link in order, and the end tag |
| Atom.LinkLineShape | src/lib/atom.ts:64-70 | a link line has href, `rel="alternate"` and `type="text/html"`, and `hreflang` exactly when it is non-empty |
| Atom.SummaryIsText | src/lib/atom.ts:19-26 | the summary line is `<summary>` with no `type` attribute around the escaped summary, so the summary is plain text; it decodes back to the caller's string |
| GenerateFeeds.ToRfc3339Injective | scripts/generate-feeds.ts:27-29 | appending the midnight time suffix loses no information |
| GenerateFeeds.ToRfc3339KeepsOrder | scripts/generate-feeds.ts:27-29 | for dates of equal length the suffix keeps the string order |
| GenerateFeeds.SortByDateDesc | scripts/generate-feeds.ts:34 | the sort returns a permutation of the index whose dates do not increase |
| GenerateFeeds.SortByDateDescStable | scripts/generate-feeds.ts:34 | articles of one date keep their index order, because the sort only asks whether the comparator is negative |
| GenerateFeeds.InsertByDateStable | scripts/generate-feeds.ts:34 | inserting an article goes before the older ones only, so among articles of one date it comes first, as it does in the input |
| GenerateFeeds.InsertByDateSorted | scripts/generate-feeds.ts:34 | inserting into a newest-first list keeps it newest first |
| GenerateFeeds.IsListedIff | scripts/generate-feeds.ts:37-38 | an article enters the combined feed if and only if it has `ja` or `en` |
| GenerateFeeds.PresentLocalesShape | scripts/generate-feeds.ts:37 | the present locales are `ja` then `en`, each when the article has it |
| GenerateFeeds.LocaleLinks | scripts/generate-feeds.ts:53-56 | one link per present locale to `BASE_URL/<loc>/articles/<slug>`, with that locale as hreflang |
| GenerateFeeds.CollectCombined | scripts/generate-feeds.ts:36-58 | the loop of the combined build yields one entry per listed article in sorted order, and the newest date of those articles, starting from `1970-01-01` |
| GenerateFeeds.CollectLocale | scripts/generate-feeds.ts:80-96 | the loop of the locale build yields one entry per article and the newest date |
| GenerateFeeds.BuildAllFeed | scripts/generate-feeds.ts:31-71 | the combined feed is the Atom document of the sorted listed articles under the combined metadata |
| GenerateFeeds.BuildLocaleFeed | scripts/generate-feeds.ts:73-109 | the locale feed is the Atom document of the sorted articles having that locale under that locale's metadata |
| GenerateFeeds.CombinedEntryContent | scripts/generate-feeds.ts:39-56 | the combined entry takes `ja` if present, else `en`, for title, excerpt, id, URL and link text ("記事を読む" / "Read more"); its links are one per present locale, `ja` first; `updated` and `published` are both the date with the midnight time suffix |
| GenerateFeeds.LocaleEntryContent | scripts/generate-feeds.ts:81-94 | a locale entry has a single link to that locale, its id is that link, its title and excerpt are that locale's, and `updated` and `published` are both the date with the suffix |
| GenerateFeeds.CombinedArticlesSelection | scripts/generate-feeds.ts:34-38 | the combined feed keeps every article with a locale as often as the index has it, and drops every article without one |
| GenerateFeeds.CombinedArticlesNewestFirst | scripts/generate-feeds.ts:34 | the combined feed's articles come newest first |
| GenerateFeeds.LocaleArticlesSelection | scripts/generate-feeds.ts:76-78 | a locale feed holds exactly the articles having that locale, newest first |
| GenerateFeeds.CombinedFeedEntryCount | scripts/generate-feeds.ts:36-58 | the combined document has one `<entry>` per listed article of the index |
| GenerateFeeds.LocaleFeedEntryCount | scripts/generate-feeds.ts:80-96 | a locale document has one `<entry>` per article having that locale |
| GenerateFeeds.LatestDateIsMax | scripts/generate-feeds.ts:33-45 | the tracked date is not older than the start date or any article's date, and is the start date or one of them |
| GenerateFeeds.FeedUpdatedIsNewest | scripts/generate-feeds.ts:60-61 | for a non-empty feed of ten-character dates, the feed's `updated` is not older than any entry's `updated` |
| GenerateFeeds.FeedMetaContent | scripts/generate-feeds.ts:60-69 | the feed's id equals its self URL, which is `BASE_URL/feed.xml` or `BASE_URL/<locale>/feed.xml`; the title is "tatmius.net ブログ" for `ja` and "tatmius.net Blog" otherwise; `updated` is the newest date with the suffix when there are entries and "now" otherwise; the author is `tatmius` with the base URL |
| GenerateFeeds.HeaderRules | scripts/generate-feeds.ts:128-137 | `_headers` lists the three feed paths, each followed by the Atom Content-Type line, with blank lines between the rules |
| GenerateFeeds.LocaleFeeds | scripts/generate-feeds.ts:120-125 | definition: one locale feed per locale, `ja` then `en`, each built with its own clock reading; properties in GenerateCompletes |
| GenerateFeeds.LocalePathsDistinct | scripts/generate-feeds.ts:117-138 | the four written paths and the two locale directories are pairwise distinct |
| GenerateFeeds.GenerateMissingOut | scripts/generate-feeds.ts:112-115 | the run stops with a failure if and only if `out/` is missing, and then nothing is written |
| GenerateFeeds.GenerateCompletes | scripts/generate-feeds.ts:117-139 | when `out/` is a directory, no target path is a directory and no locale directory path is a plain file, the run creates both locale directories and writes exactly the four files: the combined feed built with the first clock reading, each locale feed with its own reading, and `_headers` |
| GenerateFeeds.GenerateCompletedIff | scripts/generate-feeds.ts:111-140 | the run completes, with exit code 0, if and only if those three conditions hold |
| GenerateFeeds.ReadyOnWellFormed | scripts/generate-feeds.ts:117-138 | on a tree where no path is both a file and a directory, the run's precondition is: `out/` is a directory, no target is a directory, and neither locale path is a file |
| GenerateFeeds.RunWritesWellFormed | scripts/generate-feeds.ts:112-139 | the run leaves a well-formed tree well formed, whatever its outcome |
| GenerateFeeds.RunWritesCompletedIff | scripts/generate-feeds.ts:117-138 | the writes complete, whatever the documents, if and only if the same conditions hold |
| GenerateFeeds.ExportTree.RunGenerator | scripts/generate-feeds.ts:111-140 | the method's outcome and final tree are those of `Generate` on the initial tree |
| GenerateFeeds.ExportTree.WriteLocaleFeedFiles | scripts/generate-feeds.ts:120-125 | the locale loop creates each missing directory and writes each locale's feed, stopping at the first failed write |
| GenerateFeeds.ExportTree.WriteFileSync | scripts/generate-feeds.ts:117 | a write succeeds if and only if the parent directory exists and the path is not a directory; on success it sets that file, and on failure nothing changes |
| GenerateFeeds.ExportTree.MkdirSync | scripts/generate-feeds.ts:122 | creating a directory adds it and leaves the files unchanged |
| ServeOut.StripQueryMatch | scripts/serve-out.mjs:55 | removing the query cuts at the first `?` that has no line terminator after it (the `.` of `\?.*$`), and otherwise keeps the whole target |
| ServeOut.TrimTrailingSlash | scripts/serve-out.mjs:55 | one trailing `/` is removed, and only one |
| ServeOut.Base | scripts/serve-out.mjs:55 | the normalised base is never empty: an empty result becomes `/` |
| ServeOut.Segments | scripts/serve-out.mjs:56 | the segments are the non-empty pieces of the base split on `/` |
| ServeOut.RequestSegments | scripts/serve-out.mjs:55-56 | for a request `/a/b`, with an optional trailing slash and an optional query, the segments are exactly `a`, `b` |
| ServeOut.ResolvePlain | scripts/serve-out.mjs:57 | resolving segments other than `.` and `..` appends them |
| ServeOut.ResolveNormalized | scripts/serve-out.mjs:57 | resolving keeps a path free of `.`, `..` and empty segments |
| ServeOut.ExtName | scripts/serve-out.mjs:74 | the extension is non-empty if and only if the last name has a dot after its first character and is not `..`; a non-empty extension is a suffix of that name that starts with its last dot |
| ServeOut.ExtNameOf | scripts/serve-out.mjs:74 | a name `<stem>.<ext>` with a non-empty stem and no dot in `ext` has the extension `.<ext>` |
| ServeOut.MimeType | scripts/serve-out.mjs:22-36 | the content type is the table's entry for the extension, or `application/octet-stream` when there is none; it is never the Atom type |
| ServeOut.RouteRules | scripts/serve-out.mjs:54-87 | the rules apply in order and the first match wins: a failed guard gives 403, then the Atom override, then the file with its MIME type, then the directory index as HTML, otherwise 404 |
| ServeOut.ForbiddenIff | scripts/serve-out.mjs:57-61 | the response is 403 if and only if the resolved path does not have the out directory as a string prefix |
| ServeOut.AtomIff | scripts/serve-out.mjs:63-69 | a file is sent as `application/atom+xml; charset=utf-8` if and only if the guard passes, the base is one of the three feed paths, and that file exists |
| ServeOut.AtomFallThrough | scripts/serve-out.mjs:63-69 | when the feed file is missing, routing falls through to the static rules |
| ServeOut.FeedServedAsAtom | scripts/serve-out.mjs:63-69 | an existing feed file requested by its path, with or without a trailing slash or query, is served as Atom |
| ServeOut.RootIndexRuleRedundant | scripts/serve-out.mjs:71-86 | the root index rule never decides: with no segments the directory index rule already served the same file |
| ServeOut.ServedExists | scripts/serve-out.mjs:71-85 | a served path exists and is a regular file, or is an index served as HTML, and its string starts with the out directory's |
| ServeOut.ErrorResponses | scripts/serve-out.mjs:57-86 | every response that is not a file is 403 `Forbidden` or 404 `Not Found`, as `text/plain` |
| ServeOut.FeedPathsAgree | scripts/serve-out.mjs:21 | the server's Atom paths and type are those the generator's `_headers` names |
| ServeOut.Port | scripts/serve-out.mjs:19 | the port is the given number unless it is NaN or zero, which give 3080 |
| ServeOut.PrefixGuardEscape | scripts/serve-out.mjs:57-61 | as written, `/../<sibling>/<file>` serves a file outside the out directory whenever the sibling's name starts with the out directory's name |
| ServeOut.RouteServesFile | scripts/serve-out.mjs:71-77 | past the guard, a request that is not a feed path and names a file is sent as that file with its extension's MIME type |
| ServeOut.InsideGuardPassesPrefixGuard | scripts/serve-out.mjs:57-61 | every path inside the out directory passes the guard as written |
| ServeOut.SafeRouteServesInside | scripts/serve-out.mjs:57-61 | with a segment-prefix guard, every served path lies inside the out directory and exists |
| ServeOut.SafeRouteAgrees | scripts/serve-out.mjs:57-86 | the corrected guard changes nothing for paths inside the out directory and answers 403 for all others |
| TranslationsCard.LocalesAreLocaleKeys | src/components/articleTranslationsCard.tsx:32 | the locales are the record's keys other than `slug` and `date`, each at most as often as the keys hold it, and, for distinct keys, in the order the keys give them |
| TranslationsCard.CardAbsentIff | src/components/articleTranslationsCard.tsx:29-35 | the card renders nothing if and only if the slug is unknown or the article has at most one locale |
| TranslationsCard.OtherLocalesNonEmpty | src/components/articleTranslationsCard.tsx:33-35 | past the at-most-one-locale test, at most the current locale is removed, so the empty-list test never fires |
| TranslationsCard.CardItems | src/components/articleTranslationsCard.tsx:67-78 | one item per locale other than the current one, in key order for distinct keys, linking to `/<locale>/articles/<slug>`, with the locale's label as caption, the shown title of that locale's record value (no text when it has none), and aria-label `<label>: <title>` where a missing title prints `undefined` |
| TranslationsCard.FallbackLabel | src/components/articleTranslationsCard.tsx:55-57 | definition; properties in FallbackLabels, CardItems |
| TranslationsCard.FallbackLabels | src/components/articleTranslationsCard.tsx:47-58 | without `Intl.DisplayNames`, or when it throws, the label is the fallback label |
| LanguageToggle.SwitchFirstSegment | src/components/languageToggle.tsx:21 | `/seg` + `rest`, with `seg` non-empty and slash-free and `rest` empty or starting with `/`, becomes `/locale` + `rest` |
| LanguageToggle.FirstSegmentSplit | src/components/languageToggle.tsx:21 | every path the pattern matches has that form |
| LanguageToggle.SwitchWithoutSegment | src/components/languageToggle.tsx:21 | a path not starting with `/` and a non-slash character is returned unchanged |
| LanguageToggle.SwitchTwice | src/components/languageToggle.tsx:21 | switching to one locale and then another equals switching to the second |
| LanguageToggle.SwitchIdempotent | src/components/languageToggle.tsx:21 | switching to the same locale twice changes nothing the second time |
| LanguageToggle.ExpandPlain | src/components/languageToggle.tsx:21 | a replacement without `$` is inserted as it is |
| LanguageToggle.MenuTargets | src/components/languageToggle.tsx:34-39 | the menu offers exactly `en` and `ja`, both valid first segments |
| FlashCard.InitialFlags | src/components/flash-card/flash-card.tsx:29-30 | definition; properties in InitialMatchesModeExceptHideBoth, Card.constructor |
| FlashCard.InitialMatchesModeExceptHideBoth | src/components/flash-card/flash-card.tsx:29-47 | the initial flags already equal the mode's flags except for `hideBoth`, which starts with both sides shown |
| FlashCard.ModeFlags | src/components/flash-card/flash-card.tsx:33-47 | a side is hidden exactly when the mode hides it: `showA` gives (shown, hidden), `showB` (hidden, shown), `showBoth` both shown, `hideBoth` both hidden |
| FlashCard.Toggled | src/components/flash-card/flash-card.tsx:84-108 | a toggle negates that side's flag and leaves the other side's |
| FlashCard.RenderedSetterLaws | src/components/flash-card/flash-card.tsx:84-108 | a flip is the setter called with the negation of the rendered flag, and a second call with the same rendered value changes nothing more |
| FlashCard.ToggleLaws | src/components/flash-card/flash-card.tsx:84-108 | toggling a side twice restores it, and toggles of the two sides commute |
| FlashCard.ViewOf | src/components/flash-card/flash-card.tsx:95-119 | definition; properties in ToggleSwitchesView |
| FlashCard.ToggleSwitchesView | src/components/flash-card/flash-card.tsx:95-119 | flipping a side changes its eye icon, its blur and its eye button label, which moves between "…面を表示" and "…面を隠す"; the other side's view stays |
| FlashCard.ClampRatio | src/components/flash-card/flash-card.tsx:50 | the ratio is clamped into [0, 1] and kept when already inside |
| FlashCard.Ratios | src/components/flash-card/flash-card.tsx:50-51 | both widths lie in [0, 1] and add up to 1; without a ratio both are 0.5 |
| FlashCard.Card.constructor | src/components/flash-card/flash-card.tsx:29-30 | mounting sets the initial flags |
| FlashCard.Card.ApplyMode | src/components/flash-card/flash-card.tsx:33-47 | the effect sets the flags of the current mode and keeps the mode |
| FlashCard.Card.SetMode | src/components/flash-card/flash-card.tsx:33-47 | a changed mode is taken and its effect leaves exactly that mode's flags; passing the current mode again changes nothing, because the effect depends on `[mode]` |
| FlashCard.Card.SetHidden | src/components/flash-card/flash-card.tsx:84-108 | a setter call sets exactly that side's flag to the given value |
| FlashCard.Card.Click | src/components/flash-card/flash-card.tsx:84-108 | a click on the container or on the eye button flips that side exactly once: the handlers set the flag to the negation of the value read at render, and the button's handler stops propagation so the container's does not run after it |
| Atom.EscapeXml | src/lib/atom.ts:28-35 | definition; properties in EscapeXmlIsCharwise, EscapeXmlNoMarkup, EscapeXmlAmpersands, EscapeXmlRoundTrip |
| Atom.RenderFeed | src/lib/atom.ts:39-77 | definition; properties in RenderFeedLayout, FeedEntryCount, FeedEntryAt, AuthorBlockIff |
| GenerateFeeds.ToRfc3339 | scripts/generate-feeds.ts:27-29 | definition; properties in ToRfc3339Injective, ToRfc3339KeepsOrder |
| GenerateFeeds.CombinedEntry | scripts/generate-feeds.ts:39-57 | definition; properties in CombinedEntryContent |
| GenerateFeeds.LocaleEntry | scripts/generate-feeds.ts:81-95 | definition; properties in LocaleEntryContent |
| GenerateFeeds.AllFeedXml | scripts/generate-feeds.ts:31-71 | definition; properties in BuildAllFeed, CombinedArticlesSelection, CombinedFeedEntryCount, FeedMetaContent |
| GenerateFeeds.LocaleFeedXml | scripts/generate-feeds.ts:73-109 | definition; properties in BuildLocaleFeed, LocaleArticlesSelection, LocaleFeedEntryCount, FeedMetaContent |
| GenerateFeeds.RunWrites | scripts/generate-feeds.ts:112-139 | definition; properties in RunWritesMissingOut, RunWritesCompletes, RunWritesCompletedIff, RunWritesWellFormed |
| GenerateFeeds.Generate | scripts/generate-feeds.ts:111-140 | definition; properties in GenerateMissingOut, GenerateCompletes, GenerateCompletedIff, ExportTree.RunGenerator |
| ServeOut.Route | scripts/serve-out.mjs:54-87 | definition; properties in RouteRules, ForbiddenIff, AtomIff, ServedExists, ErrorResponses |
| ServeOut.StaticRoute | scripts/serve-out.mjs:71-86 | definition; properties in RouteRules, RootIndexRuleRedundant, ServedExists |
| ServeOut.PrefixGuard | scripts/serve-out.mjs:57-58 | definition; properties in ForbiddenIff, InsideGuardPassesPrefixGuard, PrefixGuardEscape |
| TranslationsCard.Card | src/components/articleTranslationsCard.tsx:25-86 | definition; properties in CardAbsentIff, CardItems |
| TranslationsCard.LocaleLabel | src/components/articleTranslationsCard.tsx:47-58 | definition; properties in FallbackLabels, CardItems |
| LanguageToggle.SwitchLanguage | src/components/languageToggle.tsx:20-23 | definition; properties in SwitchFirstSegment, SwitchWithoutSegment, SwitchTwice, SwitchIdempotent |
| JsString.JoinSplit | scripts/serve-out.mjs:56 | splitting on a character and joining with it is the identity |
| JsString.SplitJoin | scripts/serve-out.mjs:56 | joining pieces free of the separator and splitting again gives the pieces back |
| JsString.LessTransitive | scripts/generate-feeds.ts:34 | the string order the sort uses is transitive |
| JsString.LessTotal | scripts/generate-feeds.ts:34 | any two strings are equal or ordered one way |
| JsArray.FilterMultiset | src/components/articleTranslationsCard.tsx:32-34 | a filter keeps every element that satisfies the predicate, as often as it occurs, and no other |

## Left out

- File and socket I/O is not modelled: `existsSync`/`statSync` become questions about the abstract tree, the stream piping of `sendFile` and `server.listen` are left out, logging is left out, and `process.exit(1)` is the outcome `MissingOut` with exit code 1.
- The 404 that `sendFile` sends when the read stream fails (scripts/serve-out.mjs:45-50) is not modelled: a file the tree holds is taken to be readable.
- The server's own startup check that `out/` exists (scripts/serve-out.mjs:89-93) is not modelled; it is console and exit only.
- ServeOut.Port: takes `Number(process.env.PORT)` as a given JavaScript number; parsing the environment string is not modelled.
- ServeOut.Route: the out directory is a normalised absolute POSIX path given as segments. Windows separators, symbolic links and file kinds other than file and directory are not modelled.
- `send`'s default content type `text/plain; charset=utf-8` is never used, because every call passes one; the model uses the `text/plain` the calls pass.
- `new Date().toISOString()`, `process.env.NEXT_PUBLIC_SITE_URL` and the JSON import of the article index are parameters (`Clock`, `baseUrl`, `index`). The three builds each read the clock, and `Clock` holds one reading per build. Every build is given its reading, but the source takes it only when the feed has no entries; the model does not relate the three readings to each other or to the writes between them.
- GenerateFeeds.SortByDateDesc: is a stable insertion sort. It agrees with the engine's sort on the order of equal-dated articles only because that sort is stable and the comparator answers 1 for ties; the engine's own algorithm is not modelled.
- GenerateFeeds.FeedUpdatedIsNewest: requires dates of ten characters (`YYYY-MM-DD`), as the index uses, because the string order agrees with the order of the suffixed dates only for dates of one length.
- The `summaryType: "html"` the generator passes is not part of the entry type, so it is dropped before serialisation; the model has no such field, and Atom.SummaryIsText states that the summary goes out as plain text.
- The key order of `Object.keys` and `Object.entries` is the order of the given sequence; JavaScript's rule that integer-like keys come first is not modelled.
- TranslationsCard.Card: the article map has only the given slugs; lookups of inherited object properties such as `constructor` are not modelled.
- TranslationsCard.CardAbsentIff: requires the record's keys to be distinct, as the keys of a JavaScript object are.
- `Intl.DisplayNames` is a parameter: absent, or a function answering a name, `undefined` or a thrown error.
- `router.push` is a foreign effect; only the path it is given is modelled.
- LanguageToggle.SwitchTwice: requires locales without `$`. A `$` in the replacement string would be read as a replacement pattern, and both menu targets are free of it.
- The flash card's `gridTemplateColumns` string, the CSS classes other than the blur, the rendering of the side contents and a NaN ratio are not modelled; the ratio is a real number.
- The React render cycle is not modelled: the mode effect is the method `ApplyMode`, which `SetMode` calls only when the mode changes. A setter call updates its flag at once rather than queueing it for the next render; `Click` reads the rendered flag before any handler runs, as the handlers' closures do.
- The flash-card grid, the callout, the layout and page components, the Halloween animation and the bundler configuration are presentation or wiring only and are not part of this model.
- JavaScript compares strings by UTF-16 code units, while `JsString.Less` compares characters; the two agree on the ASCII dates compared here.

## Findings

| source | as written | input that shows it | evidently intended | confidence | as-written member | corrected member |
|---|---|---|---|---|---|---|
| scripts/serve-out.mjs:58 | the traversal guard tests `safePath.startsWith(outDirResolved)`, a string prefix | out directory `/srv/out`, request `/../out-private/key.json`: the resolved path `/srv/out-private/key.json` starts with `/srv/out`, so that file is served | only paths inside the out directory (segment prefix) are served; all others get 403 | not executed | ServeOut.PrefixGuardEscape | ServeOut.SafeRouteServesInside |
