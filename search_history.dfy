/** `do_search` and `clear_history` of Automation.py: the search history that
    the window shows, newest entry first. Opening the browser and showing a
    message box are not effects here: `DoSearch` returns which of them the
    call ends in, and the URL it would open. */
module SearchHistory {
  import opened Text
  import opened UrlQuote
  import opened Resolver

  /** How a call of `do_search` ends: the "Please enter a search term."
      warning, the browser opened on a URL, the "Unable to build URL for
      platform." error box, or the `IndexError` of `build_url` escaping the
      button callback. */
  datatype Outcome = Warned | Opened(url: string) | ErrorShown | Raised

  /** The history line for a search, `f"{platform_name}: {q}"`. */
  function Entry(platform: string, q: string): string
  {
    platform + ": " + q
  }

  /** What `do_search(platform)` does, apart from the history, when the
      entry field holds `entry`. */
  function SearchOutcome(platform: string, entry: string): Outcome
  {
    var q := Strip(entry);
    if q == [] then Warned
    else
      match BuildUrl(platform, q)
      case Url(u) => Opened(u)
      case NoUrl => ErrorShown
      case Raises => Raised
  }

  /** The history after `do_search(platform)` with `entry` in the field:
      one new line in front exactly when a URL was opened. */
  function HistoryAfter(history: seq<string>, platform: string, entry: string): seq<string>
  {
    if SearchOutcome(platform, entry).Opened? then [Entry(platform, Strip(entry))] + history
    else history
  }

  /** The search window's state that the core touches: the lines of the
      history list box, top line first. */
  class SearchWindow {
    var history: seq<string>

    /** The window starts with an empty history. */
    constructor ()
      ensures history == []
    {
      history := [];
    }

    /** `do_search(platform_name)` with `entryText` in the entry field. */
    method DoSearch(platformName: string, entryText: string) returns (o: Outcome)
      modifies this
      ensures o == SearchOutcome(platformName, entryText)
      ensures history == HistoryAfter(old(history), platformName, entryText)
    {
      var q := Strip(entryText);
      if q == [] {
        o := Warned;
        return;
      }
      var url := BuildUrl(platformName, q);
      if url.Raises? {
        // The exception leaves `do_search` before anything else happens.
        o := Raised;
        return;
      }
      // Python's `if url:` holds for a non-empty string and fails for `None`.
      if url.Url? && url.url != [] {
        o := Opened(url.url);
        history := [Entry(platformName, q)] + history;
      } else {
        o := ErrorShown;
      }
    }

    /** `clear_history()`: `history_list.delete(0, END)`. */
    method ClearHistory()
      modifies this
      ensures history == []
    {
      history := [];
    }
  }

  /** A blank entry only warns: no URL, no history line. */
  lemma BlankEntryOnlyWarns(h: seq<string>, p: string, e: string)
    requires AllSpace(e)
    ensures SearchOutcome(p, e) == Warned
    ensures HistoryAfter(h, p, e) == h
  {
  }

  /** When a URL is opened, the new line `"P: q"` (with the trimmed query)
      goes on top, the history grows by one, and the older lines keep their
      order one place lower. */
  lemma OpenedSearchIsPrepended(h: seq<string>, p: string, e: string)
    requires SearchOutcome(p, e).Opened?
    ensures var h' := HistoryAfter(h, p, e);
      && |h'| == |h| + 1
      && h'[0] == p + ": " + Strip(e)
      && forall i :: 0 <= i < |h| ==> h'[i + 1] == h[i]
  {
    var line := Entry(p, Strip(e));
    assert HistoryAfter(h, p, e) == [line] + h;
    PrependShifts(line, h);
  }

  lemma PrependShifts<T>(x: T, s: seq<T>)
    ensures var s' := [x] + s;
      |s'| == |s| + 1 && s'[0] == x && forall i :: 0 <= i < |s| ==> s'[i + 1] == s[i]
  {
  }

  /** A history line is added if and only if the search opened a URL, that
      is the trimmed entry is not blank and `build_url` gave a URL for it;
      otherwise the history is left exactly as it was. */
  lemma EntryIffUrlBuilt(h: seq<string>, p: string, e: string)
    ensures |HistoryAfter(h, p, e)| == |h| + 1 <==> !AllSpace(e) && BuildUrl(p, e).Url?
    ensures !(!AllSpace(e) && BuildUrl(p, e).Url?) ==> HistoryAfter(h, p, e) == h
  {
    OnlyTrimmedQueryMatters(p, e);
  }

  /** The URL opened is the one `build_url` gives for the raw entry. */
  lemma OpenedUrlIsBuildUrl(p: string, e: string)
    requires SearchOutcome(p, e).Opened?
    ensures BuildUrl(p, e) == Url(SearchOutcome(p, e).url)
  {
    OnlyTrimmedQueryMatters(p, e);
  }

  /** The error box is reachable only through a platform name `build_url`
      does not know; the six buttons and the Enter key never reach it. */
  lemma ErrorOnlyForUnknownPlatform(p: string, e: string)
    ensures SearchOutcome(p, e).ErrorShown? <==> !IsPlatform(p) && !AllSpace(e)
  {
  }

  /** The `IndexError` escapes only for an Instagram entry that is nothing
      but `@` once trimmed. */
  lemma RaisedOnlyForBareAt(p: string, e: string)
    ensures SearchOutcome(p, e).Raised? <==>
      p == "Instagram" && !AllSpace(e) && AllChar(Strip(e), '@')
  {
    StripIdempotent(e);
  }

  /** `do_search` turns blank input away before calling `build_url`, so the
      home-page branch of `build_url` is never what it opens. */
  lemma NeverOpensHomePage(p: string, e: string)
    requires IsPlatform(p) && SearchOutcome(p, e).Opened?
    ensures SearchOutcome(p, e).url != HomeUrl(p)
  {
    OpenedUrlIsBuildUrl(p, e);
    UrlsLieUnderHome(p, e);
  }

  /** The Enter key runs `do_search("Google")`: a warning for a blank entry,
      otherwise Google's search URL for the encoded trimmed entry. */
  lemma EnterKeySearchesGoogle(e: string)
    ensures SearchOutcome("Google", e) ==
      if AllSpace(e) then Warned else Opened(GoogleSearch + QuotePlus(Strip(e)))
  {
    if !AllSpace(e) {
      OnlyTrimmedQueryMatters("Google", e);
      QueryPlatformUrl("Google", e);
    }
  }

  /** A user action on the window that touches the history. */
  datatype Action = Search(platform: string, entry: string) | Clear

  /** The history after one action. */
  function Step(h: seq<string>, a: Action): seq<string>
  {
    match a
    case Search(p, e) => HistoryAfter(h, p, e)
    case Clear => []
  }

  /** The history after a sequence of actions, handled one by one in order
      (the event loop runs one callback at a time). */
  function Replay(h: seq<string>, acts: seq<Action>): seq<string>
  {
    if acts == [] then h else Step(Replay(h, acts[..|acts| - 1]), acts[|acts| - 1])
  }

  /** The actions after the last `Clear`, in order. */
  function SinceLastClear(acts: seq<Action>): seq<Action>
  {
    if acts == [] then []
    else if acts[|acts| - 1].Clear? then []
    else SinceLastClear(acts[..|acts| - 1]) + [acts[|acts| - 1]]
  }

  /** The history line an action adds: one for a search that opened a URL. */
  function Added(a: Action): (lines: seq<string>)
    ensures |lines| <= 1
  {
    if a.Search? && SearchOutcome(a.platform, a.entry).Opened?
    then [Entry(a.platform, Strip(a.entry))] else []
  }

  /** The history lines of the searches that opened a URL, oldest first. */
  function Successes(acts: seq<Action>): seq<string>
  {
    if acts == [] then [] else Successes(acts[..|acts| - 1]) + Added(acts[|acts| - 1])
  }

  lemma StepSearch(h: seq<string>, a: Action)
    requires a.Search?
    ensures Step(h, a) == Added(a) + h
  {
  }

  function Reverse<T>(s: seq<T>): seq<T>
  {
    if s == [] then [] else Reverse(s[1..]) + [s[0]]
  }

  lemma {:induction false} ReverseSnoc<T>(s: seq<T>, x: T)
    ensures Reverse(s + [x]) == [x] + Reverse(s)
    decreases |s|
  {
    if s == [] {
      assert s + [x] == [x];
    } else {
      assert (s + [x])[1..] == s[1..] + [x];
      assert (s + [x])[0] == s[0];
      ReverseSnoc(s[1..], x);
    }
  }

  /** The history shown is the lines of the searches that opened a URL since
      the last `Clear`, newest first, followed by the starting history when
      no `Clear` happened: a line is there exactly when its search
      succeeded. */
  lemma {:induction false} ReplayIsSuccessesNewestFirst(h: seq<string>, acts: seq<Action>)
    ensures Replay(h, acts) ==
      Reverse(Successes(SinceLastClear(acts))) + if Clear in acts then [] else h
    decreases |acts|
  {
    if acts == [] {
      assert Reverse(Successes(SinceLastClear(acts))) == [];
    } else {
      ReplayIsSuccessesNewestFirst(h, acts[..|acts| - 1]);
      if acts[|acts| - 1].Clear? {
        ClearEmptiesReplay(h, acts);
      } else {
        SearchExtendsReplay(h, acts);
      }
    }
  }

  lemma ClearEmptiesReplay(h: seq<string>, acts: seq<Action>)
    requires acts != [] && acts[|acts| - 1].Clear?
    ensures Replay(h, acts) ==
      Reverse(Successes(SinceLastClear(acts))) + if Clear in acts then [] else h
  {
    assert Clear in acts;
    assert SinceLastClear(acts) == [];
    assert Reverse(Successes(SinceLastClear(acts))) == [];
  }

  lemma SearchExtendsReplay(h: seq<string>, acts: seq<Action>)
    requires acts != [] && acts[|acts| - 1].Search?
    requires var pre := acts[..|acts| - 1];
      Replay(h, pre) == Reverse(Successes(SinceLastClear(pre))) + if Clear in pre then [] else h
    ensures Replay(h, acts) ==
      Reverse(Successes(SinceLastClear(acts))) + if Clear in acts then [] else h
  {
    var pre, a := acts[..|acts| - 1], acts[|acts| - 1];
    var tail := if Clear in pre then [] else h;
    StepSearch(Replay(h, pre), a);
    SearchKeepsClears(acts);
    SuccessesSnoc(SinceLastClear(pre), a);
    PrependIsSnoc(Successes(SinceLastClear(pre)), Added(a), tail);
  }

  /** A search at the end neither adds nor removes a `Clear`. */
  lemma SearchKeepsClears(acts: seq<Action>)
    requires acts != [] && acts[|acts| - 1].Search?
    ensures var pre := acts[..|acts| - 1];
      && SinceLastClear(acts) == SinceLastClear(pre) + [acts[|acts| - 1]]
      && (Clear in acts <==> Clear in pre)
  {
    var pre := acts[..|acts| - 1];
    assert acts == pre + [acts[|acts| - 1]];
  }

  lemma SuccessesSnoc(acts: seq<Action>, a: Action)
    ensures Successes(acts + [a]) == Successes(acts) + Added(a)
  {
    var s := acts + [a];
    assert s[..|s| - 1] == acts && s[|s| - 1] == a;
  }

  lemma PrependIsSnoc<T>(s: seq<T>, added: seq<T>, tail: seq<T>)
    requires |added| <= 1
    ensures added + (Reverse(s) + tail) == Reverse(s + added) + tail
  {
    if added == [] {
      assert s + added == s;
    } else {
      ReverseSnoc(s, added[0]);
      assert added == [added[0]];
    }
  }
}
