/**
 * Concrete runs of `clean_tweet`, worked out pass by pass from the general
 * lemmas: both spaces around a deleted hashtag survive, a lone `@` outlives
 * the tag pass, and cleaning is not idempotent. Each concrete string is bound
 * to a parameter, and each pass is computed by splitting the text into pieces
 * and applying the concatenation and fixpoint lemmas to each piece.
 */
module WorkedCases {
  import opened Chars
  import opened Normalizer
  import opened NormalizerLemmas

  /** A URL that fills the whole text deletes all of it. */
  lemma UrlPassWhole(s: string)
    requires StartsUrl(s) && forall i :: 0 <= i < |s| ==> !IsSpace(s[i])
    ensures UrlPass(s) == ""
  {
    assert TokenLength(s) == |s|;
    assert s[|s|..] == [];
  }

  lemma StripLeftStep(s: string)
    requires s != [] && IsSpace(s[0])
    ensures StripLeft(s) == StripLeft(s[1..])
  {
  }

  lemma StripLeftStop(s: string)
    requires s == [] || !IsSpace(s[0])
    ensures StripLeft(s) == s
  {
  }

  lemma StripRightStep(s: string)
    requires s != [] && IsSpace(s[|s| - 1])
    ensures StripRight(s) == StripRight(s[..|s| - 1])
  {
  }

  lemma StripRightStop(s: string)
    requires s == [] || !IsSpace(s[|s| - 1])
    ensures StripRight(s) == s
  {
  }

  // ---------------------------------------------------------------------------
  // "I #hate you!!! http://x.com", as the pieces "I ", "#hate ", "you!!! " and
  // "http://x.com"; the pieces are parameters fixed by the preconditions.

  lemma LowerSentence(a: string, a2: string, b: string, c: string, d: string)
    requires a == "I " && a2 == "i " && b == "#hate " && c == "you!!! " && d == "http://x.com"
    ensures Lower(a + b + c + d) == a2 + b + c + d
  {
    LowerConcat(a + b + c, d);
    LowerConcat(a + b, c);
    LowerConcat(a, b);
    assert Lower(a) == a2;
    LowerFixpoint(b);
    LowerFixpoint(c);
    LowerFixpoint(d);
  }

  lemma HashtagUrlFree(b: string)
    requires b == "#hate "
    ensures UrlFree(b)
  {
    forall i | 0 <= i < |b|
      ensures !StartsUrl(b[i..])
    {
      if i == 1 {
        assert b[1..][1] == 'a';
      } else {
        assert b[i..][0] == b[i];
      }
    }
  }

  /** Text with no `h` and no `w` has no URL. */
  lemma UrlPassNoInitials(s: string)
    requires forall i :: 0 <= i < |s| ==> s[i] != 'h' && s[i] != 'w'
    ensures UrlPass(s) == s
  {
    UrlFreeNoInitials(s);
    UrlPassFixpoint(s);
  }

  lemma UrlPassLink(d: string)
    requires d == "http://x.com"
    ensures UrlPass(d) == ""
  {
    UrlPassWhole(d);
  }

  lemma UrlPassHashtag(b: string)
    requires b == "#hate "
    ensures UrlPass(b) == b
  {
    HashtagUrlFree(b);
    UrlPassFixpoint(b);
  }

  lemma UrlPassSplit(a2: string, b: string, c: string, d: string)
    requires a2 == "i " && b == "#hate " && c == "you!!! " && d == "http://x.com"
    ensures UrlPass(a2 + b + c + d) == UrlPass(a2) + UrlPass(b) + UrlPass(c) + UrlPass(d)
  {
    UrlPassConcat(a2 + b + c, d);
    UrlPassConcat(a2 + b, c);
    UrlPassConcat(a2, b);
  }

  lemma UrlPassSentence(a2: string, b: string, c: string, d: string)
    requires a2 == "i " && b == "#hate " && c == "you!!! " && d == "http://x.com"
    ensures UrlPass(a2 + b + c + d) == a2 + b + c
  {
    UrlPassSplit(a2, b, c, d);
    UrlPassNoInitials(a2);
    UrlPassHashtag(b);
    UrlPassNoInitials(c);
    UrlPassLink(d);
  }

  /** The hashtag goes up to the space after it. */
  lemma TagPassHashtag(b: string)
    requires b == "#hate "
    ensures TagPass(b) == " "
  {
    TagPassTagFront(b, b[1..5], b[5..]);
    TagPassNoMarkers(b[5..]);
  }

  /** Text with no `@` and no `#` has no tag. */
  lemma TagPassNoMarkers(s: string)
    requires forall i :: 0 <= i < |s| ==> s[i] != '@' && s[i] != '#'
    ensures TagPass(s) == s
  {
    TagFreeNoMarkers(s);
    TagPassFixpoint(s);
  }

  lemma TagPassSplit(a2: string, b: string, c: string)
    requires a2 == "i " && b == "#hate " && c == "you!!! "
    ensures TagPass(a2 + b + c) == TagPass(a2) + TagPass(b) + TagPass(c)
  {
    TagPassConcat(a2 + b, c);
    TagPassConcat(a2, b);
  }

  lemma TagPassSentence(a2: string, b: string, c: string, e: string)
    requires a2 == "i " && b == "#hate " && c == "you!!! " && e == " "
    ensures TagPass(a2 + b + c) == a2 + e + c
  {
    TagPassSplit(a2, b, c);
    TagPassNoMarkers(a2);
    TagPassHashtag(b);
    TagPassNoMarkers(c);
  }

  lemma PunctPassYou(c: string)
    requires c == "you!!! "
    ensures PunctPass(c) == "you "
  {
    assert c == c[..3] + c[3..6] + c[6..];
    PunctPassConcat(c[..3] + c[3..6], c[6..]);
    PunctPassConcat(c[..3], c[3..6]);
    PunctPassKeepsAll(c[..3]);
    PunctPassDeletesAll(c[3..6]);
    PunctPassKeepsAll(c[6..]);
    assert c[..3] + c[6..] == "you ";
  }

  lemma PunctPassSentence(t: string, c: string)
    requires t == "i  " && c == "you!!! "
    ensures PunctPass(t + c) == t + "you "
  {
    PunctPassConcat(t, c);
    PunctPassKeepsAll(t);
    PunctPassYou(c);
  }

  lemma FinishSentence(r: string)
    requires r == "i  you "
    ensures Strip(DigitPass(r)) == "i  you"
  {
    DigitPassKeepsAll(r);
    StripLeftStop(r);
    StripRightStep(r);
    StripRightStop(r[..|r| - 1]);
  }

  /** The hashtag and the URL go, both spaces around the hashtag stay:
      `"I #hate you!!! http://x.com"` cleans to `"i  you"`. */
  lemma HashtagSentence(a: string, b: string, c: string, d: string)
    requires a == "I " && b == "#hate " && c == "you!!! " && d == "http://x.com"
    ensures CleanTweet(Str(a + b + c + d)) == "i  you"
  {
    var a2, e := "i ", " ";
    LowerSentence(a, a2, b, c, d);
    UrlPassSentence(a2, b, c, d);
    TagPassSentence(a2, b, c, e);
    var t := a2 + e;
    PunctPassSentence(t, c);
    FinishSentence(t + "you ");
  }

  // ---------------------------------------------------------------------------
  // Matches inside a token

  /** A URL inside a token takes only itself: `"xhttp://y"` keeps its `x`. */
  lemma UrlInsideToken(a: string, u: string, r: string)
    requires a == "x" && u == "http://y" && r == a + u
    ensures UrlPass(r) == a
  {
    assert r == a + u + [];
    assert r[0..] == r;
    UrlPassDropsUrl(a, u, []);
  }

  /** A mention inside a token takes only itself and its word run:
      `"john@example.com"` leaves `"john.com"` after the mention pass. */
  lemma MentionInsideToken(a: string, h: string, b: string)
    requires a == "john" && h == "example" && b == ".com"
    ensures TagPass(a + ['@'] + h + b) == a + b
  {
    TagPassDropsTag(a, '@', h, b);
    TagPassNoMarkers(a);
    TagPassNoMarkers(b);
  }

  // ---------------------------------------------------------------------------
  // A lone "@"

  lemma TagPassLone(s: string)
    requires s == "@ x"
    ensures TagPass(s) == s
  {
    assert s == [] + ['@'] + s[1..];
    TagPassLoneMarker([], '@', s[1..]);
    TagFreeNoMarkers(s[1..]);
    TagPassFixpoint(s[1..]);
  }

  lemma PunctPassLone(s: string)
    requires s == "@ x"
    ensures PunctPass(s) == " x"
  {
    assert s == s[..1] + s[1..];
    PunctPassConcat(s[..1], s[1..]);
    PunctPassDeletesAll(s[..1]);
    PunctPassKeepsAll(s[1..]);
  }

  lemma ScrubLone(s: string)
    requires s == "@ x"
    ensures Scrub(s) == " x"
  {
    LowerFixpoint(s);
    UrlPassNoInitials(s);
    TagPassLone(s);
    PunctPassLone(s);
    DigitPassKeepsAll(" x");
  }

  lemma StripLone(s: string, x: string)
    requires s == " x" && x == "x"
    ensures Strip(s) == x
  {
    assert s[1..] == x;
    StripLeftStep(s);
    StripLeftStop(x);
    StripRightStop(x);
  }

  /** An `@` that is not followed by a word character outlives the tag pass and
      is deleted by the punctuation pass. */
  lemma LoneMention()
    ensures TagPass("@ x") == "@ x"
    ensures CleanTweet(Str("@ x")) == "x"
  {
    TagPassLone("@ x");
    ScrubLone("@ x");
    StripLone(" x", "x");
  }

  // ---------------------------------------------------------------------------
  // Not idempotent

  lemma JoinableUrlFree(s: string)
    requires s == "ht.tpx"
    ensures UrlFree(s)
  {
    forall i | 0 <= i < |s|
      ensures !StartsUrl(s[i..])
    {
      if i == 0 {
        assert s[0..][2] == '.';
      } else {
        assert s[i..][0] == s[i];
      }
    }
  }

  lemma PunctPassJoinable(s: string)
    requires s == "ht.tpx"
    ensures PunctPass(s) == "httpx"
  {
    assert s == s[..2] + s[2..3] + s[3..];
    PunctPassConcat(s[..2] + s[2..3], s[3..]);
    PunctPassConcat(s[..2], s[2..3]);
    PunctPassKeepsAll(s[..2]);
    PunctPassDeletesAll(s[2..3]);
    PunctPassKeepsAll(s[3..]);
    assert s[..2] + s[3..] == "httpx";
  }

  lemma UrlPassJoinable(s: string)
    requires s == "ht.tpx"
    ensures UrlPass(s) == s
  {
    JoinableUrlFree(s);
    UrlPassFixpoint(s);
  }

  lemma ScrubJoinable(s: string)
    requires s == "ht.tpx"
    ensures Scrub(s) == "httpx"
  {
    LowerFixpoint(s);
    UrlPassJoinable(s);
    TagFreeNoMarkers(s);
    TagPassFixpoint(s);
    PunctPassJoinable(s);
    DigitPassKeepsAll("httpx");
  }

  lemma ScrubJoined(s: string)
    requires s == "httpx"
    ensures Scrub(s) == ""
  {
    LowerFixpoint(s);
    UrlPassWhole(s);
  }

  /** `clean_tweet` is not idempotent: a second cleaning can delete what the
      first one assembled, here a `.` whose removal joins `ht` and `tpx` into
      the URL token `httpx`. */
  lemma NotIdempotent()
    ensures CleanTweet(Str("ht.tpx")) == "httpx"
    ensures CleanTweet(Str(CleanTweet(Str("ht.tpx")))) == ""
  {
    ScrubJoinable("ht.tpx");
    StripLeftStop("httpx");
    StripRightStop("httpx");
    ScrubJoined("httpx");
  }
}
