/** Worked examples of `build_url`, each derived from the model.
    A query pinned by `requires q == "..."` instead of a literal keeps the
    verifier from unfolding every string function on that literal. */
module ResolverExamples {
  import opened Text
  import opened UrlQuote
  import opened Resolver

  lemma GoogleCats()
    ensures BuildUrl("Google", "cats") == Url(GoogleSearch + "cats")
  {
    var q := "cats";
    StripOfTrimmed(q);
    QuotePlusKeepsUnreserved(q);
  }

  /** A space inside a search query becomes `+`. */
  lemma YouTubeSpaceBecomesPlus(q: string)
    requires q == "lo-fi beats"
    ensures BuildUrl("YouTube", q) == Url(YouTubeSearch + "lo-fi+beats")
  {
    StripOfTrimmed(q);
    LoFiEncoding(q);
    QueryPlatformUrl("YouTube", q);
  }

  lemma LoFiEncoding(q: string)
    requires q == "lo-fi beats"
    ensures QuotePlus(q) == "lo-fi+beats"
  {
    var a, b := "lo-fi", "beats";
    assert q == a + " " + b;
    QuotePlusTwoWords(a, b);
  }

  /** Wikipedia article names take `_` for a space. */
  lemma WikipediaUnderscore(q: string)
    requires q == "Alan Turing"
    ensures BuildUrl("Wikipedia", q) == Url(WikipediaArticle + "Alan_Turing")
  {
    StripOfTrimmed(q);
    AlanTuringReplaced(q);
    WikipediaBranch(q);
  }

  lemma AlanTuringReplaced(q: string)
    requires q == "Alan Turing"
    ensures Replace(q, ' ', '_') == "Alan_Turing"
  {
  }

  /** Only the first word of an Instagram query is kept, without its `@`. */
  lemma InstagramFirstWordOnly(q: string)
    requires q == "@jane_doe extra words"
    ensures BuildUrl("Instagram", q) == Url(InstagramHome + "jane_doe")
  {
    assert QuotePlus("jane_doe") == "jane_doe" by {
      QuotePlusKeepsUnreserved("jane_doe");
    }
    JaneDoeToken(q);
    InstagramBranch(q);
  }

  lemma JaneDoeToken(q: string)
    requires q == "@jane_doe extra words"
    ensures Strip(q) == q && Split(LStripChar(q, '@'))[0] == "jane_doe"
  {
    var t := "jane_doe extra words";
    JaneDoeDropsAt(q, t);
    JaneDoeFirstWord(t);
  }

  lemma JaneDoeFirstWord(t: string)
    requires t == "jane_doe extra words"
    ensures Split(t)[0] == "jane_doe"
  {
    FirstTokenIs(t, 8);
    assert t[..8] == "jane_doe";
  }

  lemma JaneDoeDropsAt(q: string, t: string)
    requires q == "@jane_doe extra words" && t == "jane_doe extra words"
    ensures Strip(q) == q && LStripChar(q, '@') == t
  {
    StripOfTrimmed(q);
    SkipCharUnique(q, '@', 0, 1);
    assert q[1..] == t;
  }

  /** Without a leading `@` the first word is still all that is kept. */
  lemma InstagramWithoutAt(q: string)
    requires q == "jane doe"
    ensures BuildUrl("Instagram", q) == Url(InstagramHome + "jane")
  {
    assert QuotePlus("jane") == "jane" by {
      QuotePlusKeepsUnreserved("jane");
    }
    JaneDoeWord(q);
    InstagramBranch(q);
  }

  lemma JaneDoeWord(q: string)
    requires q == "jane doe"
    ensures Strip(q) == q && Split(LStripChar(q, '@'))[0] == "jane"
  {
    FirstWordToken(q, 4);
    assert q[..4] == "jane";
  }

  /** Two leading `@` both go, not only one. */
  lemma InstagramDoubleAt(q: string)
    requires q == "@@jane"
    ensures BuildUrl("Instagram", q) == Url(InstagramHome + "jane")
  {
    var w := "jane";
    assert q == seq(2, _ => '@') + w;
    JaneWord(w);
    InstagramDropsEveryAt(2, w);
    InstagramJane(w);
  }

  lemma InstagramJane(w: string)
    requires w == "jane"
    ensures BuildUrl("Instagram", w) == Url(InstagramHome + w)
  {
    assert QuotePlus(w) == w by {
      QuotePlusKeepsUnreserved(w);
    }
    JaneWord(w);
    InstagramBranch(w);
  }

  lemma JaneWord(w: string)
    requires w == "jane"
    ensures Strip(w) == w && Split(LStripChar(w, '@'))[0] == w
  {
    FirstWordToken(w, 4);
    assert w[..4] == w;
  }

  /** For a trimmed query with no `@` in front whose first `e` characters
      are its first word, that word is the token `build_url` keeps. */
  lemma FirstWordToken(q: string, e: nat)
    requires 0 < e <= |q| && q[0] != '@' && !IsSpace(q[|q| - 1])
    requires forall k :: 0 <= k < e ==> !IsSpace(q[k])
    requires e == |q| || IsSpace(q[e])
    ensures Strip(q) == q && Split(LStripChar(q, '@'))[0] == q[..e]
  {
    StripOfTrimmed(q);
    assert LStripChar(q, '@') == q by {
      SkipCharUnique(q, '@', 0, 0);
      assert q[0..] == q;
    }
    FirstTokenIs(q, e);
  }

  /** A query of `@` alone leaves `split()` nothing to index. */
  lemma InstagramBareAtRaises()
    ensures BuildUrl("Instagram", " @@ ") == Raises
  {
    StripUnique(" @@ ", 1, 3);
  }

  lemma BlankGoogleQueryOpensHome()
    ensures BuildUrl("Google", " \t\n") == Url(GoogleHome)
  {
    BlankQueryOpensHome("Google", " \t\n");
  }
}
