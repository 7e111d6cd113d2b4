# Platform search launcher: URL resolver and search history

A Dafny model of the core of a small desktop launcher. The user types a
query, presses one of six platform buttons (YouTube, Google, Wikipedia,
WhatsApp, GitHub, Instagram) or the Enter key, and the program opens the
matching URL in the browser and puts a line on top of a search-history list.

The model has five modules:

- `Text` (text.dfy): the parts of Python's `str` that the resolver uses.
  This covers `strip()`, `lstrip("@")`, `split()` with no arguments and
  `replace(" ", "_")`, all over Python's exact `str.isspace` character table.
  The scans are written over indices, as CPython implements them.
- `UrlQuote` (url_quote.dfy): `urllib.parse.quote_plus` with its default
  arguments. The text is UTF-8 encoded; the unreserved bytes of RFC 3986
  section 2.3 stay as they are; a space becomes `+`; every other byte becomes
  `%XX` with upper-case hex digits (RFC 3986 section 2.1). A decoder,
  `UnquotePlus`, is the inverse used to prove that no information is lost.
- `Resolver` (resolver.dfy): `build_url(platform, query)`. It gives a URL,
  Python's `None` for an unknown platform (`NoUrl`), or the `IndexError` of
  `split()[0]` on an Instagram query with no token left (`Raises`).
- `SearchHistory` (search_history.dfy): `do_search` and `clear_history`
  as methods of a `SearchWindow` class. The class holds the history list box
  as a `seq<string>`, top line first. `DoSearch` is proved against the
  specification functions `SearchOutcome` and `HistoryAfter`. `Replay`
  describes any sequence of searches and clears, and a lemma characterises
  the history it leaves.
- `ResolverExamples` (resolver_examples.dfy): worked examples derived from
  the model.

Two facts about the code shape the model:
- `build_url` uses `q.lstrip("@")`, which drops every leading `@`
  (`Resolver.InstagramDropsEveryAt`, `ResolverExamples.InstagramDoubleAt`).
- Platform names are the strings the code compares against; any other
  string gives `None`.

## Model

| member | source | states |
|---|---|---|
| Text.Strip | Automation.py:43 | `strip()` keeps a slice of the input; everything cut off on either side is whitespace; the kept text neither starts nor ends with whitespace; it is empty exactly when the input is all whitespace |
| Text.StripUnique | Automation.py:43 | any slice that has only whitespace around it and non-whitespace at both ends is the slice `strip()` returns |
| Text.StripIdempotent | Automation.py:43 | stripping twice is stripping once |
| Text.StripIgnoresPadding | Automation.py:43 | whitespace added before and after a query does not change its `strip()` |
| Text.LStripChar | Automation.py:72 | `lstrip("@")` keeps a suffix; every removed character is `@`; what is left does not start with `@`; it is empty exactly when the input is all `@` |
| Text.LStripCharPrefix | Automation.py:72 | any number of leading `@` in front of a string vanish under `lstrip("@")` |
| Text.Split | Automation.py:72 | every token of `split()` is non-empty and holds no whitespace; there are no tokens exactly when the input is all whitespace |
| Text.SplitKeepsEverythingButSpace | Automation.py:72 | the tokens of `split()` glued back together are the input's non-whitespace characters in order |
| Text.FirstTokenIs | Automation.py:72 | a string that starts with a run of non-whitespace ending at whitespace or the end has that run as `split()[0]` |
| Text.FirstTokenShape | Automation.py:72 | for any input that is not all whitespace, `split()[0]` is the first run of non-whitespace: non-empty, whitespace-free, starting at the first non-whitespace character and ending at whitespace or the end |
| Text.Replace | Automation.py:66 | `replace(" ", "_")` keeps the length; every space becomes `_`; every other character is unchanged |
| UrlQuote.Utf8 | Automation.py:62 | UTF-8 encodes a character in 1 to 4 bytes; one byte exactly for ASCII, and then the byte is the code point; all bytes are at least 0x80 otherwise |
| UrlQuote.Utf8RoundTrip | Automation.py:62 | decoding the UTF-8 encoding of any string gives the string back |
| UrlQuote.QuoteByte | Automation.py:62 | one byte becomes one character exactly when it is the space or unreserved ASCII, and `+` exactly when it is the space; any other byte becomes three characters starting with `%`; only unreserved characters, `+` and `%` appear |
| UrlQuote.QuoteChar | Automation.py:62 | a space is written `+`, an unreserved character as itself, any other character begins with `%`, and other ASCII characters are exactly `%XX` in upper-case hex |
| UrlQuote.QuotePlusRoundTrip | Automation.py:62 | the form decoder applied to `quote_plus(s)` gives `s` back for every string |
| UrlQuote.QuotePlusInjective | Automation.py:62 | two strings with the same `quote_plus` encoding are equal |
| UrlQuote.QuotePlusShape | Automation.py:61-70 | `quote_plus` output is made only of unreserved characters, `+` and `%XX` triples in upper-case hex, and holds no whitespace |
| UrlQuote.QuotePlusLength | Automation.py:62 | the encoding is at least as long as the text, and empty exactly when the text is empty |
| UrlQuote.QuotePlusKeepsUnreserved | Automation.py:62 | text made only of unreserved characters is left unchanged |
| UrlQuote.QuotePlusAppend | Automation.py:62 | `quote_plus` of a concatenation is the concatenation of the encodings |
| Resolver.BuildUrl | Automation.py:42-74 | an unknown platform gives `None` and a known one never does; the call raises exactly for Instagram with a trimmed query made only of `@`; every URL built is non-empty |
| Resolver.InstagramProfile | Automation.py:71-73 | for a trimmed, non-blank query, indexing the token list raises exactly when the query is only `@`; otherwise a non-empty profile URL results |
| Resolver.BlankQueryOpensHome | Automation.py:43-58 | for each of the six platforms an empty or whitespace-only query yields exactly that platform's home URL |
| Resolver.OnlyTrimmedQueryMatters | Automation.py:43 | `build_url(p, q) == build_url(p, q.strip())` for every platform and query |
| Resolver.PaddingIsIgnored | Automation.py:43 | whitespace around the query never changes the result |
| Resolver.QueryPlatformUrl | Automation.py:61-70 | YouTube, Google, WhatsApp, GitHub: the fixed prefix and then `quote_plus` of the trimmed query; the encoded part is form-encoded, holds no whitespace and decodes back to the trimmed query |
| Resolver.QueryPlatformUrlInjective | Automation.py:61-70 | on those four platforms, two non-blank queries give the same URL only when they are equal once trimmed |
| Resolver.WikipediaUrl | Automation.py:65-66 | Wikipedia: the article prefix and then the trimmed query, just as long; every space becomes `_` and every other character is kept; no space remains after the prefix |
| Resolver.WikipediaKeepsTab | Automation.py:66 | only `' '` is rewritten: a tab inside the query reaches the URL unchanged |
| Resolver.InstagramUrl | Automation.py:71-73 | Instagram: all leading `@` go, and the token kept is the first run of non-whitespace in the rest, which is non-empty and holds no whitespace; the URL is the home URL plus its `quote_plus`, which holds no whitespace and decodes back to the token |
| Resolver.InstagramDropsEveryAt | Automation.py:72 | any number of `@` in front of a trimmed Instagram query change nothing |
| Resolver.InstagramKeepsAtAfterSpace | Automation.py:72-73 | `"@ @bob"` gives the profile `%40bob`: after the `@` run is gone, the token starts at the first non-whitespace character |
| Resolver.UrlsLieUnderHome | Automation.py:45-73 | every URL of a known platform starts with its home URL, and is strictly longer when the query is not blank |
| SearchHistory.SearchWindow.constructor | Automation.py:234 | the history list starts empty |
| SearchHistory.SearchWindow.DoSearch | Automation.py:179-190 | returns how the call ends (warning, URL opened, error box, exception) and sets the history to one new line on top exactly when a URL was opened |
| SearchHistory.SearchWindow.ClearHistory | Automation.py:243-244 | the history becomes empty |
| SearchHistory.BlankEntryOnlyWarns | Automation.py:180-183 | a blank entry only warns: no URL and the same history |
| SearchHistory.OpenedSearchIsPrepended | Automation.py:185-188 | after a URL is opened, the history is one longer; its top line is `"P: q"` with the trimmed query; older lines keep their order one place lower |
| SearchHistory.EntryIffUrlBuilt | Automation.py:180-190 | a line is added exactly when the entry is not blank and `build_url` gives a URL for it; otherwise the history is unchanged |
| SearchHistory.OpenedUrlIsBuildUrl | Automation.py:180-186 | the URL opened is `build_url` of the platform and the raw entry |
| SearchHistory.ErrorOnlyForUnknownPlatform | Automation.py:184-190 | the error box appears exactly for a non-blank entry with an unknown platform name |
| SearchHistory.RaisedOnlyForBareAt | Automation.py:184 | the exception escapes exactly for an Instagram entry that is only `@` once trimmed |
| SearchHistory.NeverOpensHomePage | Automation.py:180-186 | `do_search` never opens a platform's home page, because blank input is turned away first |
| SearchHistory.EnterKeySearchesGoogle | Automation.py:250 | the Enter key warns on a blank entry and otherwise opens Google's search URL for the encoded trimmed entry |
| SearchHistory.ReplayIsSuccessesNewestFirst | Automation.py:179-190 | after any sequence of searches and clears, the history is the lines of the successful searches since the last clear, newest first; it is followed by the starting history when there was no clear |
| ResolverExamples.GoogleCats | Automation.py:63-64 | `"cats"` on Google gives `https://www.google.com/search?q=cats` |
| ResolverExamples.YouTubeSpaceBecomesPlus | Automation.py:61-62 | `"lo-fi beats"` on YouTube gives `...search_query=lo-fi+beats` |
| ResolverExamples.WikipediaUnderscore | Automation.py:65-66 | `"Alan Turing"` gives `https://en.wikipedia.org/wiki/Alan_Turing` |
| ResolverExamples.InstagramFirstWordOnly | Automation.py:71-73 | `"@jane_doe extra words"` gives `https://www.instagram.com/jane_doe` |
| ResolverExamples.InstagramWithoutAt | Automation.py:71-73 | `"jane doe"` gives `https://www.instagram.com/jane` |
| ResolverExamples.InstagramDoubleAt | Automation.py:72-73 | `"@@jane"` gives `https://www.instagram.com/jane`: both `@` go |
| ResolverExamples.InstagramBareAtRaises | Automation.py:72 | `" @@ "` on Instagram raises |
| ResolverExamples.BlankGoogleQueryOpensHome | Automation.py:48-49 | a whitespace-only Google query opens `https://www.google.com/` |

## Left out

- Icon loading (`load_icon`): file-system checks and Pillow/Tk image decoding are I/O and foreign library calls.
- The Tk window, its layout, theme colours and the hover handlers are user-interface plumbing with no logic that reaches the history or the URLs.
- `webbrowser.open` and the message boxes are external effects. `DoSearch` returns an `Outcome` instead: `Warned`, `Opened(url)`, `ErrorShown` or `Raised`.
- `entry.get()` reads a widget; its text is the `entryText` parameter of `DoSearch`.
- Event-loop wiring (`mainloop`, the button commands, the `<Return>` binding) is left out. Callbacks are taken to run one at a time, which is what `Replay` assumes. `EnterKeySearchesGoogle` states what the Enter key's callback computes.
- An escaping `IndexError` is modelled as the `Raised` outcome, with no history change and no URL. Tk's reporting of the traceback is left out.
- UrlQuote.UnquotePlus: it rejects malformed UTF-8, where Python's `unquote_plus` substitutes U+FFFD. It is only the reference inverse for the round-trip proofs, and `build_url` never decodes.
- Lone surrogate code points are left out. Python strings can hold them, and `quote_plus` raises `UnicodeEncodeError` on them, but Dafny's `char` excludes them.
