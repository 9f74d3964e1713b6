/**
 * Atom 1.0 (RFC 4287) feed builder: XML escaping of free text and the
 * serialisation of feed metadata plus an ordered entry list into one
 * document, line by line.
 */
module Atom {
  import opened Wrappers
  import opened JsString
  import opened JsArray

  /** `author?: { name; uri?; email? }` of the feed metadata. */
  datatype AtomAuthor = AtomAuthor(name: string, uri: Option<string>, email: Option<string>)

  /** Feed-level metadata (`atom:feed`, section 4.1.1 of RFC 4287). */
  datatype AtomFeedMeta = AtomFeedMeta(
    title: string,
    id: string,
    selfUrl: string,
    updated: string,
    author: Option<AtomAuthor>)

  /** One `atom:link` of an entry (section 4.2.7 of RFC 4287). */
  datatype AtomEntryLink = AtomEntryLink(href: string, hreflang: Option<string>)

  /**
   * One `atom:entry` (section 4.1.2 of RFC 4287). There is no summary type:
   * the summary is always emitted without a `type` attribute.
   */
  datatype AtomEntry = AtomEntry(
    id: string,
    title: string,
    updated: string,
    summary: string,
    links: seq<AtomEntryLink>,
    published: Option<string>)

  /** JavaScript truthiness of an optional string: present and not empty. */
  predicate Truthy(o: Option<string>)
  {
    o.Some? && |o.value| > 0
  }

  // ---------------------------------------------------------------------------
  // XML escaping (section 4.6 of XML 1.0: the five predefined entities)
  // ---------------------------------------------------------------------------

  /** `s.replace(/c/g, rep)`: every occurrence of the character `c` replaced by `rep`. */
  function ReplaceAll(s: string, c: char, rep: string): string
  {
    if |s| == 0 then ""
    else (if s[0] == c then rep else [s[0]]) + ReplaceAll(s[1..], c, rep)
  }

  /** A replacement leaves no `c` behind and brings in only characters of `rep`. */
  lemma {:induction false} ReplaceAllChars(s: string, c: char, rep: string, ch: char)
    requires ch in ReplaceAll(s, c, rep)
    ensures (ch in s && ch != c) || ch in rep
  {
    if |s| > 0 {
      var h := if s[0] == c then rep else [s[0]];
      if ch !in h {
        ReplaceAllChars(s[1..], c, rep, ch);
      }
    }
  }

  /** `escapeXml`: the chain of five global replacements, `&` first. */
  function EscapeXml(s: string): string
  {
    ReplaceAll(
      ReplaceAll(
        ReplaceAll(
          ReplaceAll(
            ReplaceAll(s, '&', "&amp;"),
            '<', "&lt;"),
          '>', "&gt;"),
        '"', "&quot;"),
      '\'', "&apos;")
  }

  /** The entity a single character becomes, or the character itself. */
  function EscapeChar(c: char): string
  {
    match c
    case '&' => "&amp;"
    case '<' => "&lt;"
    case '>' => "&gt;"
    case '"' => "&quot;"
    case '\'' => "&apos;"
    case _ => [c]
  }

  /** Reference definition of escaping: each character escaped on its own. */
  function Escaped(s: string): string
  {
    if |s| == 0 then "" else EscapeChar(s[0]) + Escaped(s[1..])
  }

  predicate IsMarkupChar(c: char)
  {
    c == '&' || c == '<' || c == '>' || c == '"' || c == '\''
  }

  /** Decoder for the five predefined entities; any other character stands for itself. */
  function Unescape(s: string): string
    decreases |s|
  {
    if |s| == 0 then ""
    else if "&amp;" <= s then "&" + Unescape(s[5..])
    else if "&lt;" <= s then "<" + Unescape(s[4..])
    else if "&gt;" <= s then ">" + Unescape(s[4..])
    else if "&quot;" <= s then "\"" + Unescape(s[6..])
    else if "&apos;" <= s then "'" + Unescape(s[6..])
    else [s[0]] + Unescape(s[1..])
  }

  /** One of the five entity references starts at position `i` of `s`. */
  predicate EntityAt(s: string, i: nat)
    requires i <= |s|
  {
    var t := s[i..];
    "&amp;" <= t || "&lt;" <= t || "&gt;" <= t || "&quot;" <= t || "&apos;" <= t
  }

  lemma {:induction false} ReplaceAllConcat(a: string, b: string, c: char, rep: string)
    ensures ReplaceAll(a + b, c, rep) == ReplaceAll(a, c, rep) + ReplaceAll(b, c, rep)
  {
    if |a| == 0 {
      assert a + b == b;
    } else {
      assert (a + b)[0] == a[0] && (a + b)[1..] == a[1..] + b;
      ReplaceAllConcat(a[1..], b, c, rep);
    }
  }

  lemma {:induction false} ReplaceAllAbsent(s: string, c: char, rep: string)
    requires c !in s
    ensures ReplaceAll(s, c, rep) == s
  {
    if |s| > 0 {
      assert s[1..] == s[1..] && c !in s[1..];
      ReplaceAllAbsent(s[1..], c, rep);
      assert s == [s[0]] + s[1..];
    }
  }

  /** Escaping distributes over concatenation: it works character by character. */
  lemma EscapeXmlConcat(a: string, b: string)
    ensures EscapeXml(a + b) == EscapeXml(a) + EscapeXml(b)
  {
    var r1a, r1b := ReplaceAll(a, '&', "&amp;"), ReplaceAll(b, '&', "&amp;");
    ReplaceAllConcat(a, b, '&', "&amp;");
    var r2a, r2b := ReplaceAll(r1a, '<', "&lt;"), ReplaceAll(r1b, '<', "&lt;");
    ReplaceAllConcat(r1a, r1b, '<', "&lt;");
    var r3a, r3b := ReplaceAll(r2a, '>', "&gt;"), ReplaceAll(r2b, '>', "&gt;");
    ReplaceAllConcat(r2a, r2b, '>', "&gt;");
    var r4a, r4b := ReplaceAll(r3a, '"', "&quot;"), ReplaceAll(r3b, '"', "&quot;");
    ReplaceAllConcat(r3a, r3b, '"', "&quot;");
    ReplaceAllConcat(r4a, r4b, '\'', "&apos;");
  }

  lemma ReplaceAllSingle(c: char, d: char, rep: string)
    ensures ReplaceAll([c], d, rep) == if c == d then rep else [c]
  {
    assert [c][1..] == [];
  }

  /** The replacement stages after the one that produced `r` leave it alone. */
  lemma ChainFixes(r: string, from: nat)
    requires 1 <= from <= 5
    requires from <= 1 ==> '<' !in r
    requires from <= 2 ==> '>' !in r
    requires from <= 3 ==> '"' !in r
    requires from <= 4 ==> '\'' !in r
    ensures from <= 1 ==> ReplaceAll(ReplaceAll(ReplaceAll(ReplaceAll(r, '<', "&lt;"), '>', "&gt;"), '"', "&quot;"), '\'', "&apos;") == r
    ensures from == 2 ==> ReplaceAll(ReplaceAll(ReplaceAll(r, '>', "&gt;"), '"', "&quot;"), '\'', "&apos;") == r
    ensures from == 3 ==> ReplaceAll(ReplaceAll(r, '"', "&quot;"), '\'', "&apos;") == r
    ensures from == 4 ==> ReplaceAll(r, '\'', "&apos;") == r
  {
    if from <= 1 { ReplaceAllAbsent(r, '<', "&lt;"); }
    if from <= 2 { ReplaceAllAbsent(r, '>', "&gt;"); }
    if from <= 3 { ReplaceAllAbsent(r, '"', "&quot;"); }
    if from <= 4 { ReplaceAllAbsent(r, '\'', "&apos;"); }
  }

  /** On one character the replacement chain yields that character's entity. */
  lemma EscapeXmlChar(c: char)
    ensures EscapeXml([c]) == EscapeChar(c)
  {
    ReplaceAllSingle(c, '&', "&amp;");
    if c == '&' {
      ChainFixes("&amp;", 1);
      return;
    }
    ReplaceAllSingle(c, '<', "&lt;");
    if c == '<' {
      ChainFixes("&lt;", 2);
      return;
    }
    ReplaceAllSingle(c, '>', "&gt;");
    if c == '>' {
      ChainFixes("&gt;", 3);
      return;
    }
    ReplaceAllSingle(c, '"', "&quot;");
    if c == '"' {
      ChainFixes("&quot;", 4);
      return;
    }
    ReplaceAllSingle(c, '\'', "&apos;");
  }

  /** The replacement chain agrees with the per-character reference definition. */
  lemma {:induction false} EscapeXmlIsCharwise(s: string)
    ensures EscapeXml(s) == Escaped(s)
  {
    if |s| == 0 {
      ReplaceAllAbsent(s, '&', "&amp;");
      ReplaceAllAbsent(s, '<', "&lt;");
      ReplaceAllAbsent(s, '>', "&gt;");
      ReplaceAllAbsent(s, '"', "&quot;");
      ReplaceAllAbsent(s, '\'', "&apos;");
    } else {
      assert s == [s[0]] + s[1..];
      EscapeXmlConcat([s[0]], s[1..]);
      EscapeXmlChar(s[0]);
      EscapeXmlIsCharwise(s[1..]);
    }
  }

  /** The escaped text contains no raw `<`, `>`, `"` or `'`. */
  lemma EscapeXmlNoMarkup(s: string)
    ensures var r := EscapeXml(s); '<' !in r && '>' !in r && '"' !in r && '\'' !in r
  {
    var r1 := ReplaceAll(s, '&', "&amp;");
    var r2 := ReplaceAll(r1, '<', "&lt;");
    var r3 := ReplaceAll(r2, '>', "&gt;");
    var r4 := ReplaceAll(r3, '"', "&quot;");
    var r5 := ReplaceAll(r4, '\'', "&apos;");
    forall ch | ch in r5 && (ch == '<' || ch == '>' || ch == '"' || ch == '\'')
      ensures false
    {
      ReplaceAllChars(r4, '\'', "&apos;", ch);
      ReplaceAllChars(r3, '"', "&quot;", ch);
      if ch != '"' {
        ReplaceAllChars(r2, '>', "&gt;", ch);
        if ch != '>' {
          ReplaceAllChars(r1, '<', "&lt;", ch);
        }
      }
    }
  }

  lemma {:induction false} EscapedAmpersands(s: string)
    ensures forall i :: 0 <= i < |Escaped(s)| && Escaped(s)[i] == '&' ==> EntityAt(Escaped(s), i)
  {
    if |s| > 0 {
      EscapedAmpersands(s[1..]);
      var h, t := EscapeChar(s[0]), Escaped(s[1..]);
      var r := h + t;
      forall i | 0 <= i < |r| && r[i] == '&'
        ensures EntityAt(r, i)
      {
        if i < |h| {
          assert h[i] == '&';
          assert i == 0 && IsMarkupChar(s[0]);
          assert r[0..] == h + t;
          assert h <= r[0..];
        } else {
          var k := i - |h|;
          assert r[i..] == t[k..];
          assert t[k] == '&';
          assert EntityAt(t, k);
        }
      }
    }
  }

  /** Because `&` is replaced first, every `&` of the output opens one of the five entities. */
  lemma EscapeXmlAmpersands(s: string)
    ensures var r := EscapeXml(s); forall i :: 0 <= i < |r| && r[i] == '&' ==> EntityAt(r, i)
  {
    EscapeXmlIsCharwise(s);
    EscapedAmpersands(s);
  }

  /** Decoding an entity reference followed by anything. */
  lemma DecodeEntity(ent: string, c: char, rest: string)
    requires ent == EscapeChar(c) && IsMarkupChar(c)
    ensures Unescape(ent + rest) == [c] + Unescape(rest)
  {
    var s := ent + rest;
    assert s[..|ent|] == ent && s[|ent|..] == rest;
    if c == '&' {
      assert "&amp;" <= s;
    } else if c == '<' {
      assert s[1] == 'l' && "&lt;" <= s;
    } else if c == '>' {
      assert s[1] == 'g' && "&gt;" <= s;
    } else if c == '"' {
      assert s[1] == 'q' && "&quot;" <= s;
    } else {
      assert s[1] == 'a' && s[2] == 'p' && "&apos;" <= s;
    }
  }

  lemma DecodeEscapeChar(c: char, rest: string)
    ensures Unescape(EscapeChar(c) + rest) == [c] + Unescape(rest)
  {
    if IsMarkupChar(c) {
      DecodeEntity(EscapeChar(c), c, rest);
    } else {
      var s := [c] + rest;
      assert s[0] == c && s[1..] == rest;
    }
  }

  lemma {:induction false} UnescapeEscaped(s: string)
    ensures Unescape(Escaped(s)) == s
  {
    if |s| > 0 {
      DecodeEscapeChar(s[0], Escaped(s[1..]));
      UnescapeEscaped(s[1..]);
      assert s == [s[0]] + s[1..];
    }
  }

  /** Round trip: decoding the entities of the escaped text gives back the text. */
  lemma EscapeXmlRoundTrip(s: string)
    ensures Unescape(EscapeXml(s)) == s
  {
    EscapeXmlIsCharwise(s);
    UnescapeEscaped(s);
  }

  /** Text without any of `& < > " '` is left unchanged. */
  lemma EscapeXmlIdentity(s: string)
    requires forall i :: 0 <= i < |s| ==> !IsMarkupChar(s[i])
    ensures EscapeXml(s) == s
  {
    ReplaceAllAbsent(s, '&', "&amp;");
    ReplaceAllAbsent(s, '<', "&lt;");
    ReplaceAllAbsent(s, '>', "&gt;");
    ReplaceAllAbsent(s, '"', "&quot;");
    ReplaceAllAbsent(s, '\'', "&apos;");
  }

  // ---------------------------------------------------------------------------
  // The document, line by line
  // ---------------------------------------------------------------------------

  const XML_DECLARATION := "<?xml version=\"1.0\" encoding=\"utf-8\"?>"
  const ATOM_NS := "http://www.w3.org/2005/Atom"
  const FEED_OPEN := "<feed xmlns=\"" + ATOM_NS + "\">"
  const FEED_CLOSE := "</feed>"
  const ENTRY_OPEN := "  <entry>"
  const ENTRY_CLOSE := "  </entry>"
  const AUTHOR_OPEN := "  <author>"
  const AUTHOR_CLOSE := "  </author>"

  /** The declaration, the root start tag, title, id, updated and the self link. */
  function HeaderLines(meta: AtomFeedMeta): seq<string>
  {
    [ XML_DECLARATION,
      FEED_OPEN,
      "  <title>" + EscapeXml(meta.title) + "</title>",
      "  <id>" + EscapeXml(meta.id) + "</id>",
      "  <updated>" + EscapeXml(meta.updated) + "</updated>",
      "  <link rel=\"self\" href=\"" + EscapeXml(meta.selfUrl) + "\" />" ]
  }

  function AuthorLines(meta: AtomFeedMeta): seq<string>
  {
    match meta.author
    case None => []
    case Some(a) =>
      [AUTHOR_OPEN, "    <name>" + EscapeXml(a.name) + "</name>"]
      + (if Truthy(a.uri) then ["    <uri>" + EscapeXml(a.uri.value) + "</uri>"] else [])
      + (if Truthy(a.email) then ["    <email>" + EscapeXml(a.email.value) + "</email>"] else [])
      + [AUTHOR_CLOSE]
  }

  const REL_ALTERNATE := "rel=\"alternate\""
  const TYPE_HTML := "type=\"text/html\""

  function HrefAttr(link: AtomEntryLink): string
  {
    "href=\"" + EscapeXml(link.href) + "\""
  }

  function HreflangAttr(link: AtomEntryLink): string
    requires link.hreflang.Some?
  {
    "hreflang=\"" + EscapeXml(link.hreflang.value) + "\""
  }

  function LinkAttrs(link: AtomEntryLink): seq<string>
  {
    [HrefAttr(link), REL_ALTERNATE, TYPE_HTML]
    + (if Truthy(link.hreflang) then [HreflangAttr(link)] else [])
  }

  function LinkLine(link: AtomEntryLink): string
  {
    "    <link " + Join(LinkAttrs(link), " ") + " />"
  }

  /**
   * A link line is `href`, `rel="alternate"` and `type="text/html"`, in that
   * order, followed by `hreflang` exactly when the link has a non-empty one.
   */
  lemma LinkLineShape(link: AtomEntryLink)
    ensures Truthy(link.hreflang) ==>
              LinkLine(link) == "    <link " + (HrefAttr(link) + " " + REL_ALTERNATE + " " + TYPE_HTML + " " + HreflangAttr(link)) + " />"
    ensures !Truthy(link.hreflang) ==>
              LinkLine(link) == "    <link " + (HrefAttr(link) + " " + REL_ALTERNATE + " " + TYPE_HTML) + " />"
  {
    if Truthy(link.hreflang) {
      assert LinkAttrs(link) == [HrefAttr(link), REL_ALTERNATE, TYPE_HTML, HreflangAttr(link)];
      JoinFour(HrefAttr(link), REL_ALTERNATE, TYPE_HTML, HreflangAttr(link), " ");
    } else {
      assert LinkAttrs(link) == [HrefAttr(link), REL_ALTERNATE, TYPE_HTML];
      JoinThree(HrefAttr(link), REL_ALTERNATE, TYPE_HTML, " ");
    }
  }

  function LinkLines(links: seq<AtomEntryLink>): seq<string>
  {
    if |links| == 0 then [] else LinkLines(links[..|links| - 1]) + [LinkLine(links[|links| - 1])]
  }

  /** One more link loop iteration: the lines so far plus the next link's line. */
  lemma LinkLinesSnoc(prefix: seq<string>, links: seq<AtomEntryLink>, j: nat, lines: seq<string>)
    requires j < |links|
    requires lines == prefix + LinkLines(links[..j]) + [LinkLine(links[j])]
    ensures lines == prefix + LinkLines(links[..j + 1])
  {
    assert links[..j + 1][..j] == links[..j];
  }

  function PublishedLines(e: AtomEntry): seq<string>
  {
    if Truthy(e.published) then ["    <published>" + EscapeXml(e.published.value) + "</published>"] else []
  }

  function SummaryLine(e: AtomEntry): string
  {
    "    <summary>" + EscapeXml(e.summary) + "</summary>"
  }

  /** The lines of an entry before its links. */
  function EntryHeadLines(e: AtomEntry): seq<string>
  {
    [ ENTRY_OPEN,
      "    <id>" + EscapeXml(e.id) + "</id>",
      "    <title>" + EscapeXml(e.title) + "</title>",
      "    <updated>" + EscapeXml(e.updated) + "</updated>" ]
    + PublishedLines(e)
    + [SummaryLine(e)]
  }

  function EntryLines(e: AtomEntry): seq<string>
  {
    EntryHeadLines(e) + LinkLines(e.links) + [ENTRY_CLOSE]
  }

  function EntriesLines(entries: seq<AtomEntry>): seq<string>
  {
    if |entries| == 0 then []
    else EntriesLines(entries[..|entries| - 1]) + EntryLines(entries[|entries| - 1])
  }

  /** One more entry loop iteration: the lines so far plus the next entry's. */
  lemma EntriesLinesStep(entries: seq<AtomEntry>, i: nat)
    requires i < |entries|
    ensures EntriesLines(entries[..i + 1]) == EntriesLines(entries[..i]) + EntryLines(entries[i])
  {
    assert entries[..i + 1][..i] == entries[..i];
  }

  /** One more entry loop iteration: the lines so far plus the next entry's. */
  lemma EntriesLinesSnoc(prefix: seq<string>, entries: seq<AtomEntry>, i: nat, lines: seq<string>)
    requires i < |entries|
    requires lines == prefix + EntriesLines(entries[..i]) + EntryLines(entries[i])
    ensures lines == prefix + EntriesLines(entries[..i + 1])
  {
    EntriesLinesStep(entries, i);
    AppendAssoc(prefix, EntriesLines(entries[..i]), EntryLines(entries[i]));
  }

  function FeedLines(meta: AtomFeedMeta, entries: seq<AtomEntry>): seq<string>
  {
    HeaderLines(meta) + AuthorLines(meta) + EntriesLines(entries) + [FEED_CLOSE]
  }

  /** The document `buildAtomFeed` returns: the lines joined by newlines. */
  function RenderFeed(meta: AtomFeedMeta, entries: seq<AtomEntry>): string
  {
    Join(FeedLines(meta, entries), "\n")
  }

  /** The inner loop of `buildAtomFeed`: one `<link>` line per link, in order. */
  method PushLinks(lines: seq<string>, links: seq<AtomEntryLink>) returns (lines': seq<string>)
    ensures lines' == lines + LinkLines(links)
  {
    lines' := lines;
    for j := 0 to |links|
      invariant lines' == lines + LinkLines(links[..j])
    {
      var link := links[j];
      var attrs := ["href=\"" + EscapeXml(link.href) + "\"", "rel=\"alternate\"", "type=\"text/html\""];
      if Truthy(link.hreflang) {
        attrs := attrs + ["hreflang=\"" + EscapeXml(link.hreflang.value) + "\""];
      }
      assert attrs == LinkAttrs(link);
      lines' := lines' + ["    <link " + Join(attrs, " ") + " />"];
      LinkLinesSnoc(lines, links, j, lines');
    }
    assert links[..|links|] == links;
  }

  /** The body of the entry loop of `buildAtomFeed`: pushes one entry's lines. */
  method PushEntry(lines: seq<string>, e: AtomEntry) returns (lines': seq<string>)
    ensures lines' == lines + EntryLines(e)
  {
    lines' := lines + [ENTRY_OPEN];
    lines' := lines' + ["    <id>" + EscapeXml(e.id) + "</id>"];
    lines' := lines' + ["    <title>" + EscapeXml(e.title) + "</title>"];
    lines' := lines' + ["    <updated>" + EscapeXml(e.updated) + "</updated>"];
    if Truthy(e.published) {
      lines' := lines' + ["    <published>" + EscapeXml(e.published.value) + "</published>"];
    }
    lines' := lines' + ["    <summary>" + EscapeXml(e.summary) + "</summary>"];
    assert lines' == lines + EntryHeadLines(e);
    lines' := PushLinks(lines', e.links);
    lines' := lines' + [ENTRY_CLOSE];
  }

  /** `buildAtomFeed`: grows the list of lines entry by entry and link by link, then joins. */
  method BuildAtomFeed(feedMeta: AtomFeedMeta, entries: seq<AtomEntry>) returns (doc: string)
    ensures doc == RenderFeed(feedMeta, entries)
  {
    var lines := [
      XML_DECLARATION,
      FEED_OPEN,
      "  <title>" + EscapeXml(feedMeta.title) + "</title>",
      "  <id>" + EscapeXml(feedMeta.id) + "</id>",
      "  <updated>" + EscapeXml(feedMeta.updated) + "</updated>",
      "  <link rel=\"self\" href=\"" + EscapeXml(feedMeta.selfUrl) + "\" />"
    ];
    assert lines == HeaderLines(feedMeta);

    if feedMeta.author.Some? {
      var author := feedMeta.author.value;
      lines := lines + [AUTHOR_OPEN, "    <name>" + EscapeXml(author.name) + "</name>"];
      if Truthy(author.uri) {
        lines := lines + ["    <uri>" + EscapeXml(author.uri.value) + "</uri>"];
      }
      if Truthy(author.email) {
        lines := lines + ["    <email>" + EscapeXml(author.email.value) + "</email>"];
      }
      lines := lines + [AUTHOR_CLOSE];
    }
    ghost var prefix := HeaderLines(feedMeta) + AuthorLines(feedMeta);
    assert lines == prefix;

    for i := 0 to |entries|
      invariant lines == prefix + EntriesLines(entries[..i])
    {
      lines := PushEntry(lines, entries[i]);
      EntriesLinesSnoc(prefix, entries, i, lines);
    }
    assert entries[..|entries|] == entries;

    lines := lines + [FEED_CLOSE];
    doc := Join(lines, "\n");
  }

  // ---------------------------------------------------------------------------
  // Properties of the document
  // ---------------------------------------------------------------------------

  /**
   * The document is the six header lines, a newline, and the rest; its last
   * line is `</feed>`, preceded by a newline and followed by nothing.
   */
  lemma RenderFeedLayout(meta: AtomFeedMeta, entries: seq<AtomEntry>)
    ensures RenderFeed(meta, entries)
         == Join(HeaderLines(meta), "\n") + "\n" + Join(AuthorLines(meta) + EntriesLines(entries) + [FEED_CLOSE], "\n")
    ensures RenderFeed(meta, entries)
         == Join(HeaderLines(meta) + AuthorLines(meta) + EntriesLines(entries), "\n") + "\n" + FEED_CLOSE
  {
    var h := HeaderLines(meta);
    var a := AuthorLines(meta);
    var es := EntriesLines(entries);
    assert FeedLines(meta, entries) == h + (a + es + [FEED_CLOSE]);
    JoinAppend(h, a + es + [FEED_CLOSE], "\n");
    JoinSnoc(h + a + es, FEED_CLOSE, "\n");
  }

  /** A child element line: indented deeper than the `<author>` and `<entry>` tags. */
  predicate IsChildLine(l: string)
  {
    |l| > 2 && l[2] == ' '
  }

  lemma {:induction false} LinkLinesAt(links: seq<AtomEntryLink>)
    ensures |LinkLines(links)| == |links|
    ensures forall k :: 0 <= k < |links| ==> LinkLines(links)[k] == LinkLine(links[k])
  {
    if |links| > 0 {
      LinkLinesAt(links[..|links| - 1]);
    }
  }

  /** Every link line starts `    <link `. */
  lemma LinkLinesArePrefixed(links: seq<AtomEntryLink>)
    ensures forall l :: l in LinkLines(links) ==> "    <link " <= l && |l| > 5 && l[2] == ' ' && l[5] == 'l'
  {
    LinkLinesAt(links);
    forall l | l in LinkLines(links)
      ensures "    <link " <= l && |l| > 5 && l[2] == ' ' && l[5] == 'l'
    {
      var k :| 0 <= k < |LinkLines(links)| && LinkLines(links)[k] == l;
      LinkLinePrefix(links[k]);
    }
  }

  lemma LinkLinePrefix(link: AtomEntryLink)
    ensures var l := LinkLine(link); "    <link " <= l && |l| > 5 && l[2] == ' ' && l[5] == 'l'
  {
    var l := LinkLine(link);
    var x := Join(LinkAttrs(link), " ");
    assert l == "    <link " + (x + " />");
    PrefixIndex("    <link ", l, 2);
    PrefixIndex("    <link ", l, 5);
  }

  lemma PrefixIndex(q: string, l: string, i: nat)
    requires q <= l && i < |q|
    ensures l[i] == q[i]
  {
  }

  /** A string differing from `q` at one of two positions does not start with `q`. */
  lemma NotPrefixAt(q: string, l: string, i: nat, j: nat)
    requires i < |q| && j < |q| && i < |l| && j < |l|
    requires l[i] != q[i] || l[j] != q[j]
    ensures !(q <= l)
  {
  }

  /** The lines between `<entry>` and `</entry>`: the child elements, links last. */
  function EntryChildLines(e: AtomEntry): seq<string>
  {
    EntryTextLines(e) + LinkLines(e.links)
  }

  /** The child lines before the links. */
  function EntryTextLines(e: AtomEntry): seq<string>
  {
    [ "    <id>" + EscapeXml(e.id) + "</id>",
      "    <title>" + EscapeXml(e.title) + "</title>",
      "    <updated>" + EscapeXml(e.updated) + "</updated>" ]
    + PublishedLines(e)
    + [SummaryLine(e)]
  }

  /** An entry is `<entry>`, its child lines, `</entry>`; no child line is a tag of the entry's level. */
  lemma EntryLinesShape(e: AtomEntry)
    ensures EntryLines(e) == [ENTRY_OPEN] + EntryChildLines(e) + [ENTRY_CLOSE]
    ensures forall l :: l in EntryChildLines(e) ==> IsChildLine(l)
  {
    EntryLinesFramed(e);
    EntryChildLinesAreChildLines(e);
  }

  lemma EntryLinesFramed(e: AtomEntry)
    ensures EntryLines(e) == [ENTRY_OPEN] + EntryChildLines(e) + [ENTRY_CLOSE]
  {
  }

  lemma EntryChildLinesAreChildLines(e: AtomEntry)
    ensures forall l :: l in EntryChildLines(e) ==> IsChildLine(l)
  {
    LinkLinesArePrefixed(e.links);
    EntryTextLinesAreChildLines(e);
  }

  lemma EntryTextLinesAreChildLines(e: AtomEntry)
    ensures forall l :: l in EntryTextLines(e) ==> IsChildLine(l)
  {
  }

  /** Every line of the entry blocks is an `<entry>` tag, an `</entry>` tag or a child line. */
  lemma {:induction false} EntriesLinesKinds(entries: seq<AtomEntry>)
    ensures forall l :: l in EntriesLines(entries) ==> l == ENTRY_OPEN || l == ENTRY_CLOSE || IsChildLine(l)
  {
    if |entries| > 0 {
      EntriesLinesKinds(entries[..|entries| - 1]);
      EntryLinesShape(entries[|entries| - 1]);
    }
  }

  /** The four tag lines of the entry and author level are distinct, and none is a child line. */
  lemma TagsDistinct()
    ensures !IsChildLine(ENTRY_OPEN) && !IsChildLine(ENTRY_CLOSE)
    ensures !IsChildLine(AUTHOR_OPEN) && !IsChildLine(AUTHOR_CLOSE)
    ensures ENTRY_OPEN != ENTRY_CLOSE && AUTHOR_OPEN != AUTHOR_CLOSE
    ensures ENTRY_OPEN != AUTHOR_OPEN && ENTRY_OPEN != AUTHOR_CLOSE
    ensures ENTRY_CLOSE != AUTHOR_OPEN && ENTRY_CLOSE != AUTHOR_CLOSE
  {
    assert ENTRY_OPEN[3] == 'e' && ENTRY_CLOSE[3] == '/' && AUTHOR_OPEN[3] == 'a' && AUTHOR_CLOSE[3] == '/';
    assert ENTRY_CLOSE[4] == 'e' && AUTHOR_CLOSE[4] == 'a';
  }

  /** A value that is not a child line does not occur among child lines. */
  lemma NotAmongChildLines(s: seq<string>, x: string)
    requires forall l :: l in s ==> IsChildLine(l)
    requires !IsChildLine(x)
    ensures x !in s
  {
  }

  /** A value that is neither of two tags nor a child line does not occur among such lines. */
  lemma NotAmongTagged(s: seq<string>, x: string, t1: string, t2: string)
    requires forall l :: l in s ==> l == t1 || l == t2 || IsChildLine(l)
    requires x != t1 && x != t2 && !IsChildLine(x)
    ensures x !in s
  {
  }

  /** Each entry yields exactly one `<entry>` and one `</entry>` line. */
  lemma EntryTagCount(e: AtomEntry)
    ensures multiset(EntryLines(e))[ENTRY_OPEN] == 1
    ensures multiset(EntryLines(e))[ENTRY_CLOSE] == 1
  {
    EntryLinesShape(e);
    var body := EntryChildLines(e);
    TagsDistinct();
    NotAmongChildLines(body, ENTRY_OPEN);
    NotAmongChildLines(body, ENTRY_CLOSE);
    CountFramed(ENTRY_OPEN, body, ENTRY_CLOSE);
  }

  lemma {:induction false} EntriesTagCount(entries: seq<AtomEntry>)
    ensures multiset(EntriesLines(entries))[ENTRY_OPEN] == |entries|
    ensures multiset(EntriesLines(entries))[ENTRY_CLOSE] == |entries|
  {
    if |entries| > 0 {
      EntriesTagCount(entries[..|entries| - 1]);
      EntryTagCount(entries[|entries| - 1]);
    }
  }

  /** The author block's lines: its two tags and child lines. */
  lemma AuthorLinesKinds(meta: AtomFeedMeta)
    ensures forall l :: l in AuthorLines(meta) ==> l == AUTHOR_OPEN || l == AUTHOR_CLOSE || IsChildLine(l)
  {
  }

  /** None of the header lines, nor `</feed>`, is an entry or author tag. */
  lemma HeaderLinesNoTags(meta: AtomFeedMeta)
    ensures ENTRY_OPEN !in HeaderLines(meta) + [FEED_CLOSE]
    ensures ENTRY_CLOSE !in HeaderLines(meta) + [FEED_CLOSE]
    ensures AUTHOR_OPEN !in HeaderLines(meta) + [FEED_CLOSE]
  {
    var h := HeaderLines(meta) + [FEED_CLOSE];
    assert h[0][0] == '<' && h[1][0] == '<' && h[6][0] == '<';
    assert h[2][3] == 't' && h[3][3] == 'i' && h[4][3] == 'u' && h[5][3] == 'l';
    assert ENTRY_OPEN[0] == ' ' && ENTRY_CLOSE[0] == ' ' && AUTHOR_OPEN[0] == ' ';
    assert ENTRY_OPEN[3] == 'e' && ENTRY_CLOSE[3] == '/' && AUTHOR_OPEN[3] == 'a';
  }

  /** There is exactly one `<entry>` block per input entry. */
  lemma FeedEntryCount(meta: AtomFeedMeta, entries: seq<AtomEntry>)
    ensures multiset(FeedLines(meta, entries))[ENTRY_OPEN] == |entries|
    ensures multiset(FeedLines(meta, entries))[ENTRY_CLOSE] == |entries|
  {
    HeaderLinesNoTags(meta);
    AuthorLinesKinds(meta);
    EntriesTagCount(entries);
    TagsDistinct();
    NotAmongTagged(AuthorLines(meta), ENTRY_OPEN, AUTHOR_OPEN, AUTHOR_CLOSE);
    NotAmongTagged(AuthorLines(meta), ENTRY_CLOSE, AUTHOR_OPEN, AUTHOR_CLOSE);
    CountOnlyIn(HeaderLines(meta), AuthorLines(meta), EntriesLines(entries), [FEED_CLOSE], ENTRY_OPEN);
    CountOnlyIn(HeaderLines(meta), AuthorLines(meta), EntriesLines(entries), [FEED_CLOSE], ENTRY_CLOSE);
  }

  /** Some line of `s` starts with `p`. */
  predicate HasLineStarting(s: seq<string>, p: string)
  {
    exists l :: l in s && p <= l
  }

  /** The `<author>` block is present exactly when the metadata has an author. */
  lemma AuthorBlockIff(meta: AtomFeedMeta, entries: seq<AtomEntry>)
    ensures AUTHOR_OPEN in FeedLines(meta, entries) <==> meta.author.Some?
  {
    HeaderLinesNoTags(meta);
    EntriesLinesKinds(entries);
    TagsDistinct();
    NotAmongTagged(EntriesLines(entries), AUTHOR_OPEN, ENTRY_OPEN, ENTRY_CLOSE);
    if meta.author.Some? {
      assert AuthorLines(meta)[0] == AUTHOR_OPEN;
    }
  }

  /** Inside `<author>`: a `<uri>` line exactly when the uri is non-empty. */
  lemma AuthorUriIff(meta: AtomFeedMeta)
    requires meta.author.Some?
    ensures HasLineStarting(AuthorLines(meta), "    <uri>") <==> Truthy(meta.author.value.uri)
  {
    var a := meta.author.value;
    var lines := AuthorLines(meta);
    if Truthy(a.uri) {
      var l := "    <uri>" + EscapeXml(a.uri.value) + "</uri>";
      assert lines[2] == l;
      assert l in lines && "    <uri>" <= l;
    } else {
      forall l | l in lines
        ensures !("    <uri>" <= l)
      {
        assert |l| > 5 && (l[2] != ' ' || l[5] != 'u');
        NotPrefixAt("    <uri>", l, 2, 5);
      }
    }
  }

  /** Inside `<author>`: an `<email>` line exactly when the email is non-empty. */
  lemma AuthorEmailIff(meta: AtomFeedMeta)
    requires meta.author.Some?
    ensures HasLineStarting(AuthorLines(meta), "    <email>") <==> Truthy(meta.author.value.email)
  {
    var a := meta.author.value;
    var lines := AuthorLines(meta);
    if Truthy(a.email) {
      var l := "    <email>" + EscapeXml(a.email.value) + "</email>";
      assert l in lines;
      assert "    <email>" <= l;
    } else {
      forall l | l in lines
        ensures !("    <email>" <= l)
      {
        assert |l| > 5 && (l[2] != ' ' || l[5] != 'e');
        NotPrefixAt("    <email>", l, 2, 5);
      }
    }
  }

  /** No line of `s` starts with `q` when every line differs from `q` at position `i`. */
  lemma NoLineStarting(s: seq<string>, q: string, i: nat)
    requires i < |q|
    requires forall l :: l in s ==> i < |l| && l[i] != q[i]
    ensures !HasLineStarting(s, q)
  {
    forall l | l in s
      ensures !(q <= l)
    {
      NotPrefixAt(q, l, i, i);
    }
  }

  /** Every line of a framed block differs from `q` at position `i` when its parts do. */
  lemma FramedDiffer(open: string, body: seq<string>, close: string, q: string, i: nat)
    requires i < |q| && i < |open| && i < |close| && open[i] != q[i] && close[i] != q[i]
    requires forall l :: l in body ==> i < |l| && l[i] != q[i]
    ensures forall l :: l in [open] + body + [close] ==> i < |l| && l[i] != q[i]
  {
  }

  /** Without a non-empty `published`, no text line of the entry is a `<published>` line. */
  lemma EntryTextLinesUnpublished(e: AtomEntry)
    requires !Truthy(e.published)
    ensures forall l :: l in EntryTextLines(e) ==> 5 < |l| && l[5] != 'p'
  {
  }

  lemma EntryChildLinesUnpublished(e: AtomEntry)
    requires !Truthy(e.published)
    ensures forall l :: l in EntryChildLines(e) ==> 5 < |l| && l[5] != 'p'
  {
    LinkLinesArePrefixed(e.links);
    EntryTextLinesUnpublished(e);
  }

  /** Inside an entry: a `<published>` line exactly when `published` is non-empty. */
  lemma EntryPublishedIff(e: AtomEntry)
    ensures HasLineStarting(EntryLines(e), "    <published>") <==> Truthy(e.published)
  {
    if Truthy(e.published) {
      var l := "    <published>" + EscapeXml(e.published.value) + "</published>";
      assert EntryLines(e)[4] == l;
      assert l in EntryLines(e) && "    <published>" <= l;
    } else {
      EntryUnpublished(e);
    }
  }

  lemma EntryUnpublished(e: AtomEntry)
    requires !Truthy(e.published)
    ensures !HasLineStarting(EntryLines(e), "    <published>")
  {
    var q := "    <published>";
    EntryLinesFramed(e);
    EntryChildLinesUnpublished(e);
    var body := EntryChildLines(e);
    assert ENTRY_OPEN[5] == 't' && ENTRY_CLOSE[5] == 'n' && q[5] == 'p';
    FramedDiffer(ENTRY_OPEN, body, ENTRY_CLOSE, q, 5);
    NoLineStarting(EntryLines(e), q, 5);
  }

  /**
   * An entry's lines in order: `<entry>`, id, title, updated, the optional
   * published line, the summary, one link line per link in the order of
   * `links`, `</entry>`.
   */
  lemma EntryLayout(e: AtomEntry)
    ensures var lines := EntryLines(e);
            var p := |PublishedLines(e)|;
            && |lines| == 6 + p + |e.links|
            && lines[0] == ENTRY_OPEN
            && lines[1] == "    <id>" + EscapeXml(e.id) + "</id>"
            && lines[2] == "    <title>" + EscapeXml(e.title) + "</title>"
            && lines[3] == "    <updated>" + EscapeXml(e.updated) + "</updated>"
            && (p == 1 <==> Truthy(e.published))
            && (Truthy(e.published) ==> lines[4] == "    <published>" + EscapeXml(e.published.value) + "</published>")
            && lines[4 + p] == SummaryLine(e)
            && (forall k :: 0 <= k < |e.links| ==> lines[5 + p + k] == LinkLine(e.links[k]))
            && lines[|lines| - 1] == ENTRY_CLOSE
  {
    LinkLinesAt(e.links);
    var head := EntryHeadLines(e);
    assert |head| == 5 + |PublishedLines(e)|;
    forall k | 0 <= k < |e.links|
      ensures EntryLines(e)[5 + |PublishedLines(e)| + k] == LinkLine(e.links[k])
    {
      assert EntryLines(e)[|head| + k] == LinkLines(e.links)[k];
    }
  }

  /**
   * The summary is plain text: the `<summary>` start tag has no `type`
   * attribute (so section 3.1.1 of RFC 4287 reads it as "text"), and its
   * content is the escaped summary, with no raw `<` to start an element.
   */
  lemma SummaryIsText(e: AtomEntry)
    ensures var l := SummaryLine(e);
            && |l| >= 23
            && l[..13] == "    <summary>"
            && l[|l| - 10..] == "</summary>"
            && Unescape(l[13..|l| - 10]) == e.summary
            && '<' !in l[13..|l| - 10]
  {
    var c := EscapeXml(e.summary);
    var l := SummaryLine(e);
    assert l[13..|l| - 10] == c;
    EscapeXmlRoundTrip(e.summary);
    EscapeXmlNoMarkup(e.summary);
  }

  /** The entry blocks of two lists one after the other: no reordering, no filtering. */
  lemma {:induction false} EntriesLinesConcat(a: seq<AtomEntry>, b: seq<AtomEntry>)
    ensures EntriesLines(a + b) == EntriesLines(a) + EntriesLines(b)
  {
    if |b| == 0 {
      assert a + b == a;
    } else {
      var b' := b[..|b| - 1];
      assert (a + b)[..|a + b| - 1] == a + b';
      EntriesLinesConcat(a, b');
      AppendAssoc(EntriesLines(a), EntriesLines(b'), EntryLines(b[|b| - 1]));
    }
  }

  /** The `k`-th entry's block sits between the blocks of the entries before and after it. */
  lemma EntriesLinesSplit(entries: seq<AtomEntry>, k: nat)
    requires k < |entries|
    ensures EntriesLines(entries)
         == EntriesLines(entries[..k]) + EntryLines(entries[k]) + EntriesLines(entries[k + 1..])
  {
    var pre, e, post := entries[..k], entries[k], entries[k + 1..];
    assert entries == pre + ([e] + post);
    EntriesLinesConcat(pre, [e] + post);
    EntriesLinesConcat([e], post);
    assert EntriesLines([e]) == EntryLines(e) by {
      assert [e][..0] == [];
    }
    AppendAssoc(EntriesLines(pre), EntryLines(e), EntriesLines(post));
  }

  /** In the document, the `k`-th entry's block comes after those of the entries before it. */
  lemma FeedEntryAt(meta: AtomFeedMeta, entries: seq<AtomEntry>, k: nat)
    requires k < |entries|
    ensures FeedLines(meta, entries)
         == HeaderLines(meta) + AuthorLines(meta)
            + (EntriesLines(entries[..k]) + EntryLines(entries[k]) + EntriesLines(entries[k + 1..]))
            + [FEED_CLOSE]
  {
    EntriesLinesSplit(entries, k);
  }
}
