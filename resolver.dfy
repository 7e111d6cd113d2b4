/** `build_url(platform, query)` of Automation.py: trims the query, sends a
    blank query to the platform's home page, and otherwise builds the
    platform's search or profile URL. */
module Resolver {
  import opened Text
  import opened UrlQuote

  /** What a call of `build_url` ends in: a URL, Python's `None` for a
      platform it does not know, or the `IndexError` that `split()[0]`
      raises when an Instagram query has no token left. */
  datatype BuildResult = Url(url: string) | NoUrl | Raises

  const YouTubeHome := "https://www.youtube.com/"
  const GoogleHome := "https://www.google.com/"
  const WikipediaHome := "https://en.wikipedia.org/"
  const WhatsAppHome := "https://web.whatsapp.com/"
  const GitHubHome := "https://github.com/"
  const InstagramHome := "https://www.instagram.com/"

  const YouTubeSearch := "https://www.youtube.com/results?search_query="
  const GoogleSearch := "https://www.google.com/search?q="
  const WikipediaArticle := "https://en.wikipedia.org/wiki/"
  const WhatsAppSearch := "https://web.whatsapp.com/search?q="
  const GitHubSearch := "https://github.com/search?q="

  /** The six platform names `build_url` recognises (the button labels). */
  predicate IsPlatform(p: string)
  {
    p in {"YouTube", "Google", "Wikipedia", "WhatsApp", "GitHub", "Instagram"}
  }

  /** The six platform names are pairwise different, so at most one branch
      of `build_url` answers any name. */
  lemma PlatformNamesDistinct()
    ensures "YouTube" != "Google" && "YouTube" != "Wikipedia" && "YouTube" != "WhatsApp"
    ensures "YouTube" != "GitHub" && "YouTube" != "Instagram"
    ensures "Google" != "Wikipedia" && "Google" != "WhatsApp" && "Google" != "GitHub"
    ensures "Google" != "Instagram"
    ensures "Wikipedia" != "WhatsApp" && "Wikipedia" != "GitHub" && "Wikipedia" != "Instagram"
    ensures "WhatsApp" != "GitHub" && "WhatsApp" != "Instagram"
    ensures "GitHub" != "Instagram"
  {
    assert "Wikipedia"[0] != "Instagram"[0];
    assert "WhatsApp"[1] != "Google"[1];
  }

  /** The four platforms whose whole query goes through `quote_plus`. */
  predicate IsQueryPlatform(p: string)
  {
    p in {"YouTube", "Google", "WhatsApp", "GitHub"}
  }

  /** The home page of each platform. */
  function HomeUrl(p: string): string
    requires IsPlatform(p)
  {
    match p
    case "YouTube" => YouTubeHome
    case "Google" => GoogleHome
    case "Wikipedia" => WikipediaHome
    case "WhatsApp" => WhatsAppHome
    case "GitHub" => GitHubHome
    case _ => InstagramHome
  }

  /** The text to which the encoded query is appended. */
  function SearchPrefix(p: string): string
    requires IsQueryPlatform(p)
  {
    match p
    case "YouTube" => YouTubeSearch
    case "Google" => GoogleSearch
    case "WhatsApp" => WhatsAppSearch
    case _ => GitHubSearch
  }

  /** `build_url(platform, query)`. A recognised platform never yields
      `None`, an unrecognised one always does; the call raises exactly for
      an Instagram query that is `@` characters and nothing else once
      trimmed; and every URL it builds is non-empty. */
  function BuildUrl(platform: string, query: string): (r: BuildResult)
    ensures r.NoUrl? <==> !IsPlatform(platform)
    ensures r.Raises? <==>
      platform == "Instagram" && Strip(query) != [] && AllChar(Strip(query), '@')
    ensures r.Url? ==> r.url != []
  {
    var q := Strip(query);
    if q == [] then
      if platform == "YouTube" then Url(YouTubeHome)
      else if platform == "Google" then Url(GoogleHome)
      else if platform == "Wikipedia" then Url(WikipediaHome)
      else if platform == "WhatsApp" then Url(WhatsAppHome)
      else if platform == "GitHub" then Url(GitHubHome)
      else if platform == "Instagram" then Url(InstagramHome)
      else NoUrl
    else if platform == "YouTube" then Url(YouTubeSearch + QuotePlus(q))
    else if platform == "Google" then Url(GoogleSearch + QuotePlus(q))
    else if platform == "Wikipedia" then Url(WikipediaArticle + Replace(q, ' ', '_'))
    else if platform == "WhatsApp" then Url(WhatsAppSearch + QuotePlus(q))
    else if platform == "GitHub" then Url(GitHubSearch + QuotePlus(q))
    else if platform == "Instagram" then InstagramProfile(q)
    else NoUrl
  }

  /** The Instagram branch of `build_url` for a trimmed, non-blank query `q`:
      `q.lstrip("@").split()[0]`, encoded after the home URL. Indexing the
      empty token list raises, which happens exactly when `q` is nothing
      but `@`. */
  function InstagramProfile(q: string): (r: BuildResult)
    requires q != [] && !IsSpace(q[|q| - 1])
    ensures r.Raises? <==> AllChar(q, '@')
    ensures r.Url? ==> r.url != []
    ensures !r.NoUrl?
  {
    var t := LStripChar(q, '@');
    var tokens := Split(t);
    assert tokens == [] <==> t == [] by {
      if t != [] { assert t[|t| - 1] == q[|q| - 1]; }
    }
    if tokens == [] then Raises
    // The profile URL is the home URL followed by the encoded token.
    else Url(InstagramHome + QuotePlus(tokens[0]))
  }

  /** For each of the six platforms an empty or whitespace-only query opens
      exactly that platform's home page. */
  lemma BlankQueryOpensHome(p: string, q: string)
    requires IsPlatform(p) && AllSpace(q)
    ensures BuildUrl(p, q) == Url(HomeUrl(p))
  {
  }

  /** Only the trimmed query matters. */
  lemma OnlyTrimmedQueryMatters(p: string, q: string)
    ensures BuildUrl(p, q) == BuildUrl(p, Strip(q))
  {
    StripIdempotent(q);
  }

  /** Whitespace typed before or after the query changes nothing. */
  lemma PaddingIsIgnored(p: string, u: string, q: string, v: string)
    requires AllSpace(u) && AllSpace(v)
    ensures BuildUrl(p, u + q + v) == BuildUrl(p, q)
  {
    StripIgnoresPadding(u, q, v);
  }

  /** YouTube, Google, WhatsApp and GitHub: the fixed prefix and then the
      `quote_plus` encoding of the trimmed query; the encoded part is made
      of unreserved characters, `+` and `%XX` triples only, holds no
      whitespace, and decodes back to the trimmed query. */
  lemma QueryPlatformUrl(p: string, q: string)
    requires IsQueryPlatform(p) && !AllSpace(q)
    ensures BuildUrl(p, q) == Url(SearchPrefix(p) + QuotePlus(Strip(q)))
    ensures IsFormEncoded(QuotePlus(Strip(q))) && NoSpace(QuotePlus(Strip(q)))
    ensures UnquotePlus(QuotePlus(Strip(q))) == Wrappers.Some(Strip(q))
  {
    QuotePlusShape(Strip(q));
    QuotePlusRoundTrip(Strip(q));
  }

  /** On those four platforms two non-blank queries lead to the same URL
      only when they are the same once trimmed. */
  lemma QueryPlatformUrlInjective(p: string, a: string, b: string)
    requires IsQueryPlatform(p) && !AllSpace(a) && !AllSpace(b)
    requires BuildUrl(p, a) == BuildUrl(p, b)
    ensures Strip(a) == Strip(b)
  {
    var pre := SearchPrefix(p);
    var ea, eb := QuotePlus(Strip(a)), QuotePlus(Strip(b));
    assert pre + ea == pre + eb;
    assert ea == (pre + ea)[|pre|..];
    assert eb == (pre + eb)[|pre|..];
    QuotePlusInjective(Strip(a), Strip(b));
  }

  lemma WikipediaBranch(q: string)
    requires !AllSpace(q)
    ensures BuildUrl("Wikipedia", q) == Url(WikipediaArticle + Replace(Strip(q), ' ', '_'))
  {
    PlatformNamesDistinct();
  }

  /** Wikipedia: the article prefix and then the trimmed query, just as
      long, with every plain space turned into `_` and every other
      character, other whitespace and `%`, `#`, `?` included, left as it is;
      nothing is percent-encoded. */
  lemma WikipediaUrl(q: string)
    requires !AllSpace(q)
    ensures var r, t := BuildUrl("Wikipedia", q), Strip(q);
      && r.Url? && |r.url| == |WikipediaArticle| + |t|
      && r.url[..|WikipediaArticle|] == WikipediaArticle
      && (forall k :: 0 <= k < |t| ==>
            r.url[|WikipediaArticle| + k] == if t[k] == ' ' then '_' else t[k])
      && (forall k :: |WikipediaArticle| <= k < |r.url| ==> r.url[k] != ' ')
  {
    WikipediaBranch(q);
    ReplacedAfter(WikipediaArticle, Strip(q));
  }

  lemma ReplacedAfter(pre: string, t: string)
    ensures var u := pre + Replace(t, ' ', '_');
      && |u| == |pre| + |t| && u[..|pre|] == pre
      && (forall k :: 0 <= k < |t| ==> u[|pre| + k] == if t[k] == ' ' then '_' else t[k])
      && (forall k :: |pre| <= k < |u| ==> u[k] != ' ')
  {
    var u := pre + Replace(t, ' ', '_');
    assert forall k :: 0 <= k < |t| ==> u[|pre| + k] == Replace(t, ' ', '_')[k];
    assert u[..|pre|] == pre;
  }

  /** As written, only `' '` is rewritten: a tab inside a Wikipedia query
      reaches the URL unchanged. */
  lemma WikipediaKeepsTab()
    ensures BuildUrl("Wikipedia", "a\tb") == Url(WikipediaArticle + "a\tb")
  {
    TabKept("a\tb");
  }

  lemma TabKept(q: string)
    requires q == "a\tb"
    ensures BuildUrl("Wikipedia", q) == Url(WikipediaArticle + q)
  {
    StripOfTrimmed(q);
    assert Replace(q, ' ', '_') == q;
    WikipediaBranch(q);
  }

  lemma InstagramBranch(q: string)
    requires !AllSpace(q)
    ensures BuildUrl("Instagram", q) == InstagramProfile(Strip(q))
  {
    PlatformNamesDistinct();
  }

  /** Instagram: every leading `@` is dropped, then only the first
      whitespace-separated token is kept: the first run of non-whitespace,
      which is non-empty and holds no whitespace. The URL is the home URL
      followed by its `quote_plus` encoding, which decodes back to the
      token. */
  lemma InstagramUrl(q: string)
    requires !AllSpace(q) && !AllChar(Strip(q), '@')
    ensures var t := LStripChar(Strip(q), '@');
      && !AllSpace(t)
      && var w := Split(t)[0];
      && IsFirstRun(t, w)
      && BuildUrl("Instagram", q) == Url(InstagramHome + QuotePlus(w))
      && NoSpace(QuotePlus(w))
      && UnquotePlus(QuotePlus(w)) == Wrappers.Some(w)
  {
    var s := Strip(q);
    var t := LStripChar(s, '@');
    LStripKeepsLast(s);
    var w := Split(t)[0];
    FirstTokenShape(t);
    InstagramBranch(q);
    assert InstagramProfile(s) == Url(InstagramHome + QuotePlus(w));
    QuotePlusShape(w);
    QuotePlusRoundTrip(w);
  }

  /** What `lstrip("@")` leaves of a trimmed query that is not all `@` still
      ends in the query's last, non-whitespace, character. */
  lemma LStripKeepsLast(s: string)
    requires s != [] && !IsSpace(s[|s| - 1]) && !AllChar(s, '@')
    ensures var t := LStripChar(s, '@'); t != [] && !AllSpace(t)
  {
    var t := LStripChar(s, '@');
    assert t[|t| - 1] == s[|s| - 1];
  }

  /** `lstrip("@")` drops every leading `@`, not only the first: any number
      of `@` in front of a trimmed query change nothing. */
  lemma InstagramDropsEveryAt(n: nat, q: string)
    requires q != [] && Strip(q) == q
    ensures BuildUrl("Instagram", seq(n, _ => '@') + q) == BuildUrl("Instagram", q)
  {
    var s := seq(n, _ => '@') + q;
    assert Strip(s) == s by {
      assert s[|s| - 1] == q[|q| - 1];
      assert !IsSpace(s[0]) by {
        if n > 0 { assert s[0] == '@'; } else { assert s[0] == q[0]; }
      }
      StripUnique(s, 0, |s|);
      assert s[0..|s|] == s;
    }
    InstagramBranch(q);
    InstagramBranch(s);
    LStripCharPrefix(n, '@', q);
    assert InstagramProfile(s) == InstagramProfile(q);
  }

  /** After the dropped `@`s the token starts at the first non-whitespace
      character, so a second `@` behind a space survives and is encoded. */
  lemma InstagramKeepsAtAfterSpace()
    ensures BuildUrl("Instagram", "@ @bob") == Url(InstagramHome + "%40bob")
  {
    var q := "@ @bob";
    assert Strip(q) == q by {
      StripUnique(q, 0, |q|);
      assert q[0..|q|] == q;
    }
    InstagramBranch(q);
    AtBobToken();
    AtBobEncoding();
  }

  lemma AtBobToken()
    ensures Split(LStripChar("@ @bob", '@')) == ["@bob"]
  {
    var q, t := "@ @bob", " @bob";
    assert LStripChar(q, '@') == t by {
      SkipCharUnique(q, '@', 0, 1);
      assert q[1..] == t;
    }
    SkipSpaceUnique(t, 0, 1);
    SkipWordUnique(t, 1, 5);
    assert SplitFrom(t, 5) == [];
    assert SplitFrom(t, 0) == [t[1..5]] + SplitFrom(t, 5);
    assert t[1..5] == "@bob";
  }

  lemma AtBobEncoding()
    ensures QuotePlus("@bob") == "%40bob"
  {
    var b := "bob";
    assert "@bob" == "@" + b;
    QuotePlusAppend("@", b);
    AtEncoding();
    QuotePlusKeepsUnreserved(b);
  }

  /** `@` is reserved and written as its `%XX` escape. */
  lemma AtEncoding()
    ensures QuotePlus("@") == "%40"
  {
    QuoteChar('@');
    assert HexDigit(4) == '4' && HexDigit(0) == '0';
  }

  /** Every URL of a recognised platform lies under its home page, and for a
      non-blank query it is strictly longer than the home page, so the
      home-page branch answers only blank queries. */
  lemma UrlsLieUnderHome(p: string, q: string)
    requires IsPlatform(p) && BuildUrl(p, q).Url?
    ensures var u := BuildUrl(p, q).url;
      && |HomeUrl(p)| <= |u| && u[..|HomeUrl(p)|] == HomeUrl(p)
      && (!AllSpace(q) ==> |u| > |HomeUrl(p)|)
  {
    if AllSpace(q) {
      BlankQueryOpensHome(p, q);
    } else if IsQueryPlatform(p) {
      QueryUnderHome(p, q);
    } else if p == "Wikipedia" {
      WikipediaUnderHome(q);
    } else {
      InstagramUnderHome(q);
    }
  }

  lemma QueryUnderHome(p: string, q: string)
    requires IsQueryPlatform(p) && !AllSpace(q)
    ensures var u := BuildUrl(p, q).url;
      BuildUrl(p, q).Url? && |u| > |HomeUrl(p)| && u[..|HomeUrl(p)|] == HomeUrl(p)
  {
    QueryPlatformUrl(p, q);
    QuotePlusLength(Strip(q));
    SearchPrefixUnderHome(p);
    UnderPrefix(HomeUrl(p), SearchPrefix(p), QuotePlus(Strip(q)));
  }

  lemma WikipediaUnderHome(q: string)
    requires !AllSpace(q)
    ensures var u := BuildUrl("Wikipedia", q).url;
      BuildUrl("Wikipedia", q).Url? && |u| > |WikipediaHome| && u[..|WikipediaHome|] == WikipediaHome
  {
    WikipediaUrl(q);
    UnderPrefix(WikipediaHome, WikipediaArticle, Replace(Strip(q), ' ', '_'));
  }

  /** Each search prefix starts with its platform's home page. */
  lemma SearchPrefixUnderHome(p: string)
    requires IsQueryPlatform(p)
    ensures |HomeUrl(p)| < |SearchPrefix(p)|
    ensures SearchPrefix(p)[..|HomeUrl(p)|] == HomeUrl(p)
  {
  }

  lemma UnderPrefix(home: string, pre: string, rest: string)
    requires |home| < |pre| && pre[..|home|] == home
    ensures (pre + rest)[..|home|] == home && |pre + rest| > |home|
  {
    assert (pre + rest)[..|home|] == pre[..|home|];
  }

  lemma InstagramUnderHome(q: string)
    requires !AllSpace(q) && BuildUrl("Instagram", q).Url?
    ensures var u := BuildUrl("Instagram", q).url;
      |u| > |InstagramHome| && u[..|InstagramHome|] == InstagramHome
  {
    var t := Strip(q);
    InstagramBranch(q);
    InstagramUrl(q);
    var w := Split(LStripChar(t, '@'))[0];
    QuotePlusLength(w);
    assert (InstagramHome + QuotePlus(w))[..|InstagramHome|] == InstagramHome;
  }
}
