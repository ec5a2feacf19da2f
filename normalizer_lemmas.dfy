/**
 * What `clean_tweet` guarantees: each pass only deletes, the URL and tag
 * passes leave no match behind, whitespace is never deleted except by the
 * final strip, and the output alphabet is lowercase letters, `_` and
 * whitespace.
 */
module NormalizerLemmas {
  import opened Chars
  import opened Subsequences
  import opened Normalizer

  /** The whitespace characters of `s`, in order. */
  function Spaces(s: string): string
  {
    if s == [] then [] else (if IsSpace(s[0]) then [s[0]] else []) + Spaces(s[1..])
  }

  lemma SpacesCons(c: char, s: string)
    ensures Spaces([c] + s) == (if IsSpace(c) then [c] else []) + Spaces(s)
  {
    assert ([c] + s)[1..] == s;
  }

  /** Deleting a whitespace-free prefix keeps the whitespace. */
  lemma {:induction false} SpacesSkip(s: string, k: nat)
    requires k <= |s| && forall i :: 0 <= i < k ==> !IsSpace(s[i])
    ensures Spaces(s[k..]) == Spaces(s)
    decreases k
  {
    if k > 0 {
      assert s[1..][k - 1..] == s[k..];
      SpacesSkip(s[1..], k - 1);
    }
  }

  /** No alternative of the URL pattern matches anywhere in `s`. */
  predicate UrlFree(s: string)
  {
    forall i :: 0 <= i < |s| ==> !StartsUrl(s[i..])
  }

  /** No `@\w+` or `#\w+` matches anywhere in `s`. */
  predicate TagFree(s: string)
  {
    forall i :: 0 <= i < |s| ==> !StartsTag(s[i..])
  }

  // ---------------------------------------------------------------------------
  // Lowercasing

  lemma LowerFacts(s: string)
    ensures |Lower(s)| == |s|
    ensures forall c :: c in Lower(s) ==> !IsUpper(c)
    ensures Spaces(Lower(s)) == Spaces(s)
  {
    LowerSpaces(s);
  }

  lemma {:induction false} LowerSpaces(s: string)
    ensures Spaces(Lower(s)) == Spaces(s)
    decreases |s|
  {
    if s != [] {
      assert Lower(s) == [ToLower(s[0])] + Lower(s[1..]);
      SpacesCons(ToLower(s[0]), Lower(s[1..]));
      LowerSpaces(s[1..]);
    }
  }

  /** Lowercasing works one character at a time, so it distributes over
      concatenation. */
  lemma LowerConcat(a: string, b: string)
    ensures Lower(a + b) == Lower(a) + Lower(b)
  {
    forall i | 0 <= i < |a + b|
      ensures Lower(a + b)[i] == (Lower(a) + Lower(b))[i]
    {
      if i < |a| {
        assert (a + b)[i] == a[i];
      } else {
        assert (a + b)[i] == b[i - |a|];
      }
    }
  }

  /** Text without uppercase letters is unchanged by lowercasing. */
  lemma LowerFixpoint(s: string)
    requires forall i :: 0 <= i < |s| ==> !IsUpper(s[i])
    ensures Lower(s) == s
  {
    forall i | 0 <= i < |s|
      ensures Lower(s)[i] == s[i]
    {
    }
  }

  // ---------------------------------------------------------------------------
  // URL pass

  /** The `https\S+` alternative never matches where `http\S+` does not. */
  lemma HttpsSubsumed(s: string)
    ensures StartsHttps(s) ==> StartsHttp(s)
  {
  }

  /** The URL pass only deletes characters. */
  lemma {:induction false} UrlPassSubseq(s: string)
    ensures IsSubseq(UrlPass(s), s)
    decreases |s|
  {
    if s == [] {
    } else if StartsUrl(s) {
      var k := TokenLength(s);
      UrlPassSubseq(s[k..]);
      SubseqDropPrefix(UrlPass(s[k..]), s, k);
    } else {
      UrlPassSubseq(s[1..]);
      SubseqKeep(s[0], UrlPass(s[1..]), s);
    }
  }

  /** A deleted URL never contains whitespace, so the URL pass keeps every
      whitespace character. */
  lemma {:induction false} UrlPassSpaces(s: string)
    ensures Spaces(UrlPass(s)) == Spaces(s)
    decreases |s|
  {
    if s == [] {
    } else if StartsUrl(s) {
      UrlPassSpaces(s[TokenLength(s)..]);
      SpacesSkip(s, TokenLength(s));
    } else {
      UrlPassSpaces(s[1..]);
      SpacesCons(s[0], UrlPass(s[1..]));
      SpacesCons(s[0], s[1..]);
      assert s == [s[0]] + s[1..];
    }
  }

  /** The leading whitespace-free run of the URL pass's output is a prefix of
      its input: a deletion is always followed by whitespace or the end. */
  lemma {:induction false} UrlPassHead(s: string)
    ensures TokenLength(UrlPass(s)) <= |s|
    ensures forall j :: 0 <= j < TokenLength(UrlPass(s)) ==> UrlPass(s)[j] == s[j]
    decreases |s|
  {
    if s == [] {
    } else if StartsUrl(s) {
      var u := s[TokenLength(s)..];
      if u != [] {
        assert IsSpace(u[0]) && !StartsUrl(u);
        assert UrlPass(u)[0] == u[0];
      }
    } else {
      var r, rest := UrlPass(s), UrlPass(s[1..]);
      UrlPassHead(s[1..]);
      assert r == [s[0]] + rest;
      if !IsSpace(s[0]) {
        assert r[1..] == rest;
        assert TokenLength(r) == 1 + TokenLength(rest);
      }
    }
  }

  /** Whether a URL starts at the front depends only on the leading
      whitespace-free run. */
  lemma StartsUrlOnToken(a: string, b: string)
    requires StartsUrl(a)
    requires TokenLength(a) <= |b|
    requires forall j :: 0 <= j < TokenLength(a) ==> a[j] == b[j]
    ensures StartsUrl(b)
  {
    var m := TokenLength(a);
    assert m > 3;
    if StartsHttp(a) || StartsHttps(a) {
      assert m > 4;
      if StartsHttps(a) {
        assert m > 5;
      }
    }
  }

  /** A URL at the front of the first character followed by the URL pass of
      the rest was already a URL in the input. */
  lemma KeptFrontStartsUrl(s: string)
    requires s != []
    ensures StartsUrl([s[0]] + UrlPass(s[1..])) ==> StartsUrl(s)
  {
    var r, rest := [s[0]] + UrlPass(s[1..]), UrlPass(s[1..]);
    if StartsUrl(r) {
      UrlPassHead(s[1..]);
      assert r[1..] == rest;
      assert TokenLength(r) == 1 + TokenLength(rest);
      StartsUrlOnToken(r, s);
    }
  }

  /** Where the URL pass keeps the first character, no URL starts its output
      either. */
  lemma UrlPassFront(s: string)
    requires s != [] && !StartsUrl(s)
    ensures !StartsUrl(UrlPass(s))
  {
    assert UrlPass(s) == [s[0]] + UrlPass(s[1..]);
    KeptFrontStartsUrl(s);
  }

  /** After the URL pass no occurrence of `http` or `www` is followed by a
      non-whitespace character. */
  lemma {:induction false} UrlPassUrlFree(s: string)
    ensures UrlFree(UrlPass(s))
    decreases |s|
  {
    if s == [] {
    } else if StartsUrl(s) {
      UrlPassUrlFree(s[TokenLength(s)..]);
    } else {
      var r, rest := UrlPass(s), UrlPass(s[1..]);
      UrlPassUrlFree(s[1..]);
      UrlPassFront(s);
      forall i | 0 <= i < |r|
        ensures !StartsUrl(r[i..])
      {
        if i > 0 {
          assert r[i..] == rest[i - 1..];
        } else {
          assert r[i..] == r;
        }
      }
    }
  }

  /** Every URL alternative begins with `h` or `w`, so text with neither letter
      has no URL match. */
  lemma UrlFreeNoInitials(s: string)
    requires forall i :: 0 <= i < |s| ==> s[i] != 'h' && s[i] != 'w'
    ensures UrlFree(s)
  {
    forall i | 0 <= i < |s|
      ensures !StartsUrl(s[i..])
    {
      assert s[i..][0] == s[i];
    }
  }

  /** A whitespace-free run never reaches past a whitespace character. */
  lemma {:induction false} TokenLengthConcat(a: string, b: string)
    requires a != [] && IsSpace(a[|a| - 1])
    ensures TokenLength(a + b) == TokenLength(a) < |a|
    decreases |a|
  {
    if !IsSpace(a[0]) {
      assert (a + b)[1..] == a[1..] + b;
      TokenLengthConcat(a[1..], b);
    }
  }

  /** Whether a URL starts at the front of `a + b` is decided inside `a` when
      `a` ends with whitespace. */
  lemma StartsUrlConcat(a: string, b: string)
    requires a != [] && IsSpace(a[|a| - 1])
    ensures StartsUrl(a + b) <==> StartsUrl(a)
  {
    var ab := a + b;
    if StartsUrl(ab) {
      assert forall j :: 0 <= j < |a| ==> ab[j] == a[j];
      assert |a| > 4;
      if StartsHttp(ab) || StartsHttps(ab) {
        assert |a| > 5;
        if StartsHttps(ab) {
          assert |a| > 6;
        }
      }
    }
  }

  /** One step of the URL pass over `a + b` where a URL starts in `a`: the
      URL is deleted and the pass carries on with the rest of `a`. */
  lemma UrlPassConcatDrop(a: string, b: string) returns (rest: string)
    requires a != [] && IsSpace(a[|a| - 1]) && StartsUrl(a)
    ensures |rest| < |a| && rest != [] && IsSpace(rest[|rest| - 1])
    ensures UrlPass(a) == UrlPass(rest)
    ensures UrlPass(a + b) == UrlPass(rest + b)
  {
    StartsUrlConcat(a, b);
    TokenLengthConcat(a, b);
    rest := a[TokenLength(a)..];
    assert rest[|rest| - 1] == a[|a| - 1];
    assert (a + b)[TokenLength(a)..] == rest + b;
  }

  /** One step of the URL pass over `a + b` where no URL starts in `a`: the
      first character is kept and the pass carries on with the rest of `a`. */
  lemma UrlPassConcatKeep(a: string, b: string) returns (rest: string)
    requires a != [] && IsSpace(a[|a| - 1]) && !StartsUrl(a)
    ensures |rest| < |a| && (rest == [] || IsSpace(rest[|rest| - 1]))
    ensures UrlPass(a) == [a[0]] + UrlPass(rest)
    ensures UrlPass(a + b) == [a[0]] + UrlPass(rest + b)
  {
    StartsUrlConcat(a, b);
    rest := a[1..];
    assert rest == [] || rest[|rest| - 1] == a[|a| - 1];
    assert (a + b)[0] == a[0] && (a + b)[1..] == rest + b;
  }

  /** A common prefix in front of a split text is a prefix of its first part. */
  lemma PrefixSplit(c: string, x: string, y: string, p: string, q: string)
    requires p == c + x && q == c + (x + y)
    ensures q == p + y
  {
  }

  /** Splitting `a + b` after a deleted URL gives splitting it at the end of
      `a`. */
  lemma UrlPassConcatDropStep(a: string, b: string) returns (rest: string)
    requires a != [] && IsSpace(a[|a| - 1]) && StartsUrl(a)
    ensures |rest| < |a| && rest != [] && IsSpace(rest[|rest| - 1])
    ensures UrlPass(rest + b) == UrlPass(rest) + UrlPass(b) ==>
              UrlPass(a + b) == UrlPass(a) + UrlPass(b)
  {
    rest := UrlPassConcatDrop(a, b);
  }

  /** Splitting `a + b` after a kept character gives splitting it at the end
      of `a`. */
  lemma UrlPassConcatKeepStep(a: string, b: string) returns (rest: string)
    requires a != [] && IsSpace(a[|a| - 1]) && !StartsUrl(a)
    ensures |rest| < |a| && (rest == [] || IsSpace(rest[|rest| - 1]))
    ensures UrlPass(rest + b) == UrlPass(rest) + UrlPass(b) ==>
              UrlPass(a + b) == UrlPass(a) + UrlPass(b)
  {
    rest := UrlPassConcatKeep(a, b);
    if UrlPass(rest + b) == UrlPass(rest) + UrlPass(b) {
      PrefixSplit([a[0]], UrlPass(rest), UrlPass(b), UrlPass(a), UrlPass(a + b));
    }
  }

  /** URLs cannot span whitespace, so the URL pass works separately on the
      text up to a whitespace character and on the text after it. */
  lemma {:induction false} UrlPassConcat(a: string, b: string)
    requires a == [] || IsSpace(a[|a| - 1])
    ensures UrlPass(a + b) == UrlPass(a) + UrlPass(b)
    decreases |a|
  {
    if a == [] {
      assert a + b == b;
    } else if StartsUrl(a) {
      var rest := UrlPassConcatDropStep(a, b);
      UrlPassConcat(rest, b);
    } else {
      var rest := UrlPassConcatKeepStep(a, b);
      UrlPassConcat(rest, b);
    }
  }

  /** One step of the URL pass over `a + b` where no URL starts inside `a`:
      the first character is kept, and no URL starts inside `a[1..]` either. */
  lemma UrlPassKeepsBeforeStep(a: string, b: string)
    requires a != []
    requires forall j :: 0 <= j < |a| ==> !StartsUrl((a + b)[j..])
    ensures UrlPass(a + b) == [a[0]] + UrlPass(a[1..] + b)
    ensures forall j :: 0 <= j < |a| - 1 ==> !StartsUrl((a[1..] + b)[j..])
  {
    var s := a + b;
    assert s[0..] == s;
    assert s[0] == a[0] && s[1..] == a[1..] + b;
    forall j | 0 <= j < |a| - 1
      ensures !StartsUrl((a[1..] + b)[j..])
    {
      assert (a[1..] + b)[j..] == s[j + 1..];
    }
  }

  /** Only the match is deleted: text in which no URL starts passes through
      the URL pass unchanged even when a URL follows it in the same token. */
  lemma {:induction false} UrlPassKeepsBefore(a: string, b: string)
    requires forall j :: 0 <= j < |a| ==> !StartsUrl((a + b)[j..])
    ensures UrlPass(a + b) == a + UrlPass(b)
    decreases |a|
  {
    if a == [] {
      assert a + b == b;
    } else {
      UrlPassKeepsBeforeStep(a, b);
      UrlPassKeepsBefore(a[1..], b);
      assert a == [a[0]] + a[1..];
      PrefixSplit([a[0]], a[1..], UrlPass(b), a, UrlPass(a + b));
    }
  }

  /** A whitespace-free run followed by whitespace or the end is exactly the
      span of a greedy `\S+` started at its front. */
  lemma {:induction false} TokenLengthRun(u: string, b: string)
    requires forall i :: 0 <= i < |u| ==> !IsSpace(u[i])
    requires b == [] || IsSpace(b[0])
    ensures TokenLength(u + b) == |u|
    decreases |u|
  {
    if u == [] {
      assert u + b == b;
    } else {
      assert (u + b)[0] == u[0] && (u + b)[1..] == u[1..] + b;
      TokenLengthRun(u[1..], b);
    }
  }

  /** Text after a URL start does not undo it. */
  lemma StartsUrlExtend(u: string, b: string)
    requires StartsUrl(u)
    ensures StartsUrl(u + b)
  {
    var t := u + b;
    assert forall i :: 0 <= i < |u| ==> t[i] == u[i];
  }

  /** A URL at the front goes as a whole, up to the next whitespace. */
  lemma UrlPassUrlFront(u: string, b: string)
    requires StartsUrl(u) && forall i :: 0 <= i < |u| ==> !IsSpace(u[i])
    requires b == [] || IsSpace(b[0])
    ensures UrlPass(u + b) == UrlPass(b)
  {
    StartsUrlExtend(u, b);
    TokenLengthRun(u, b);
    assert (u + b)[|u|..] == b;
  }

  /** The URL pass deletes exactly a URL match: the text before it, in which
      no URL starts, is kept; the match (a URL start, then non-whitespace up
      to whitespace or the end) goes; and the pass carries on after it. */
  lemma UrlPassDropsUrl(a: string, u: string, b: string)
    requires forall j :: 0 <= j < |a| ==> !StartsUrl((a + u + b)[j..])
    requires StartsUrl(u) && forall i :: 0 <= i < |u| ==> !IsSpace(u[i])
    requires b == [] || IsSpace(b[0])
    ensures UrlPass(a + u + b) == a + UrlPass(b)
  {
    var t := u + b;
    assert a + u + b == a + t;
    UrlPassKeepsBefore(a, t);
    UrlPassUrlFront(u, b);
  }

  /** Text without URL matches passes through the URL pass unchanged. */
  lemma {:induction false} UrlPassFixpoint(s: string)
    requires UrlFree(s)
    ensures UrlPass(s) == s
    decreases |s|
  {
    if s != [] {
      assert s[0..] == s && !StartsUrl(s);
      assert forall i :: 0 <= i < |s| - 1 ==> s[1..][i..] == s[i + 1..];
      UrlPassFixpoint(s[1..]);
    }
  }

  /** Unlike `clean_tweet` as a whole, the URL pass on its own is idempotent. */
  lemma UrlPassIdempotent(s: string)
    ensures UrlPass(UrlPass(s)) == UrlPass(s)
  {
    UrlPassUrlFree(s);
    UrlPassFixpoint(UrlPass(s));
  }

  // ---------------------------------------------------------------------------
  // Mention and hashtag pass

  /** The tag pass only deletes characters. */
  lemma {:induction false} TagPassSubseq(s: string)
    ensures IsSubseq(TagPass(s), s)
    decreases |s|
  {
    if s == [] {
    } else if StartsTag(s) {
      var k := 1 + WordLength(s[1..]);
      TagPassSubseq(s[k..]);
      SubseqDropPrefix(TagPass(s[k..]), s, k);
    } else {
      TagPassSubseq(s[1..]);
      SubseqKeep(s[0], TagPass(s[1..]), s);
    }
  }

  /** A deleted tag is `@` or `#` and word characters, so no whitespace is lost. */
  lemma {:induction false} TagPassSpaces(s: string)
    ensures Spaces(TagPass(s)) == Spaces(s)
    decreases |s|
  {
    if s == [] {
    } else if StartsTag(s) {
      var k := 1 + WordLength(s[1..]);
      TagPassSpaces(s[k..]);
      assert forall i :: 1 <= i < k ==> s[i] == s[1..][i - 1];
      SpacesSkip(s, k);
    } else {
      TagPassSpaces(s[1..]);
      SpacesCons(s[0], TagPass(s[1..]));
      SpacesCons(s[0], s[1..]);
      assert s == [s[0]] + s[1..];
    }
  }

  /** A word character at the front of the tag pass's output was at the front
      of its input: a deletion is always followed by a non-word character or
      the end. */
  lemma {:induction false} TagPassHead(s: string)
    ensures TagPass(s) != [] && IsWord(TagPass(s)[0]) ==> s != [] && TagPass(s)[0] == s[0]
    decreases |s|
  {
    if s != [] && StartsTag(s) {
      var n := WordLength(s[1..]);
      var u := s[1 + n..];
      assert u == [] || u[0] == s[1..][n];
      TagPassHead(u);
    }
  }

  /** After the tag pass no `@` or `#` is followed by a word character. */
  lemma {:induction false} TagPassTagFree(s: string)
    ensures TagFree(TagPass(s))
    decreases |s|
  {
    if s == [] {
    } else if StartsTag(s) {
      TagPassTagFree(s[1 + WordLength(s[1..])..]);
    } else {
      var r, rest := TagPass(s), TagPass(s[1..]);
      TagPassTagFree(s[1..]);
      TagPassHead(s[1..]);
      forall i | 0 <= i < |r|
        ensures !StartsTag(r[i..])
      {
        if i > 0 {
          assert r[i..] == rest[i - 1..];
        } else {
          assert r[i..] == r;
        }
      }
    }
  }

  /** A run of word characters never reaches past a non-word character. */
  lemma {:induction false} WordLengthConcat(a: string, b: string)
    requires a != [] && !IsWord(a[|a| - 1])
    ensures WordLength(a + b) == WordLength(a) < |a|
    decreases |a|
  {
    if IsWord(a[0]) {
      assert (a + b)[1..] == a[1..] + b;
      WordLengthConcat(a[1..], b);
    }
  }

  /** A greedy `\w+` run stops at the first non-word character. */
  lemma {:induction false} WordLengthStops(x: string, t: string)
    requires t != [] && !IsWord(t[0])
    ensures WordLength(x + t) == WordLength(x)
    decreases |x|
  {
    if x == [] {
      assert x + t == t;
    } else {
      assert (x + t)[0] == x[0];
      if IsWord(x[0]) {
        assert (x + t)[1..] == x[1..] + t;
        WordLengthStops(x[1..], t);
      }
    }
  }

  /** Tags cannot span whitespace, so the tag pass works separately on the
      text up to a whitespace character and on the text after it. */
  lemma {:induction false} TagPassConcat(a: string, b: string)
    requires a == [] || IsSpace(a[|a| - 1])
    ensures TagPass(a + b) == TagPass(a) + TagPass(b)
    decreases |a|
  {
    var ab := a + b;
    if a == [] {
      assert ab == b;
    } else {
      assert ab[1..] == a[1..] + b;
      if |a| > 1 {
        assert ab[1] == a[1];
      }
      assert StartsTag(ab) == StartsTag(a);
      if StartsTag(a) {
        WordLengthConcat(a[1..], b);
        var k := 1 + WordLength(a[1..]);
        assert ab[k..] == a[k..] + b;
        TagPassConcat(a[k..], b);
      } else {
        TagPassConcat(a[1..], b);
      }
    }
  }

  /** Text placed before a non-word character starts a tag exactly when it did
      on its own. */
  lemma StartsTagBefore(a: string, t: string)
    requires a != [] && t != [] && !IsWord(t[0])
    ensures StartsTag(a + t) == StartsTag(a)
  {
    var s := a + t;
    assert s[0] == a[0];
    if |a| == 1 {
      assert s[1] == t[0];
    } else {
      assert s[1] == a[1];
    }
  }

  /** One step of the tag pass over `a + t`, where `t` starts with a non-word
      character and a tag starts in `a`: the tag ends inside `a`. */
  lemma TagPassNonWordDrop(a: string, t: string) returns (rest: string)
    requires t != [] && !IsWord(t[0]) && a != [] && StartsTag(a)
    ensures |rest| < |a|
    ensures TagPass(a) == TagPass(rest)
    ensures TagPass(a + t) == TagPass(rest + t)
  {
    var s := a + t;
    StartsTagBefore(a, t);
    assert s[1..] == a[1..] + t;
    WordLengthStops(a[1..], t);
    var k := 1 + WordLength(a[1..]);
    rest := a[k..];
    assert s[k..] == rest + t;
  }

  /** One step of the tag pass over `a + t` where no tag starts in `a`. */
  lemma TagPassNonWordKeep(a: string, t: string) returns (rest: string)
    requires t != [] && !IsWord(t[0]) && a != [] && !StartsTag(a)
    ensures |rest| < |a|
    ensures TagPass(a) == [a[0]] + TagPass(rest)
    ensures TagPass(a + t) == [a[0]] + TagPass(rest + t)
  {
    var s := a + t;
    StartsTagBefore(a, t);
    rest := a[1..];
    assert s[0] == a[0] && s[1..] == rest + t;
  }

  /** A tag's word run stops at a non-word character, so the tag pass works
      separately on the text before any non-word character and on the text
      from it on. */
  lemma {:induction false} TagPassSplitAtNonWord(a: string, t: string)
    requires t != [] && !IsWord(t[0])
    ensures TagPass(a + t) == TagPass(a) + TagPass(t)
    decreases |a|
  {
    if a == [] {
      assert a + t == t;
    } else if StartsTag(a) {
      var rest := TagPassNonWordDrop(a, t);
      TagPassSplitAtNonWord(rest, t);
    } else {
      var rest := TagPassNonWordKeep(a, t);
      TagPassSplitAtNonWord(rest, t);
      PrefixSplit([a[0]], TagPass(rest), TagPass(t), TagPass(a), TagPass(a + t));
    }
  }

  /** An `@` or `#` not followed by a word character is no tag: it survives the
      tag pass, and a tag before it ends before it. */
  lemma TagPassLoneMarker(a: string, c: char, b: string)
    requires c == '@' || c == '#'
    requires b == [] || !IsWord(b[0])
    ensures TagPass(a + [c] + b) == TagPass(a) + [c] + TagPass(b)
  {
    var t := [c] + b;
    assert a + [c] + b == a + t;
    assert t[1..] == b;
    TagPassSplitAtNonWord(a, t);
  }

  /** The greedy `\w+` run of a word followed by a non-word character is the
      word. */
  lemma WordLengthWord(h: string, b: string)
    requires forall i :: 0 <= i < |h| ==> IsWord(h[i])
    requires b == [] || !IsWord(b[0])
    ensures WordLength(h + b) == |h|
  {
    if b == [] {
      assert h + b == h;
    } else {
      WordLengthStops(h, b);
    }
  }

  /** A tag at the front goes as a whole, up to the first non-word character. */
  lemma TagPassTagFront(t: string, h: string, b: string)
    requires t != [] && (t[0] == '@' || t[0] == '#') && t[1..] == h + b
    requires h != [] && forall i :: 0 <= i < |h| ==> IsWord(h[i])
    requires b == [] || !IsWord(b[0])
    ensures TagPass(t) == TagPass(b)
  {
    WordLengthWord(h, b);
    assert t[1] == h[0];
    assert t[1 + |h|..] == b;
  }

  /** A tag anywhere in the text, inside a token too, goes as a whole, up to
      the first non-word character, and the text on both sides stays as the
      tag pass leaves it: the whitespace before and after the tag survives. */
  lemma TagPassDropsTag(a: string, c: char, h: string, b: string)
    requires c == '@' || c == '#'
    requires h != [] && forall i :: 0 <= i < |h| ==> IsWord(h[i])
    requires b == [] || !IsWord(b[0])
    ensures TagPass(a + [c] + h + b) == TagPass(a) + TagPass(b)
  {
    var t := [c] + (h + b);
    assert a + [c] + h + b == a + t;
    assert t[1..] == h + b;
    TagPassTagFront(t, h, b);
    TagPassSplitAtNonWord(a, t);
  }

  /** Without `@` or `#` there is nothing for the tag pass to match. */
  lemma TagFreeNoMarkers(s: string)
    requires forall i :: 0 <= i < |s| ==> s[i] != '@' && s[i] != '#'
    ensures TagFree(s)
  {
    forall i | 0 <= i < |s|
      ensures !StartsTag(s[i..])
    {
      assert s[i..][0] == s[i];
    }
  }

  /** Text without tag matches passes through the tag pass unchanged. */
  lemma {:induction false} TagPassFixpoint(s: string)
    requires TagFree(s)
    ensures TagPass(s) == s
    decreases |s|
  {
    if s != [] {
      assert s[0..] == s && !StartsTag(s);
      assert forall i :: 0 <= i < |s| - 1 ==> s[1..][i..] == s[i + 1..];
      TagPassFixpoint(s[1..]);
    }
  }

  lemma TagPassIdempotent(s: string)
    ensures TagPass(TagPass(s)) == TagPass(s)
  {
    TagPassTagFree(s);
    TagPassFixpoint(TagPass(s));
  }

  // ---------------------------------------------------------------------------
  // Punctuation and digit passes

  /** The punctuation pass only deletes characters. */
  lemma {:induction false} PunctPassSubseq(s: string)
    ensures IsSubseq(PunctPass(s), s)
    decreases |s|
  {
    if s != [] {
      PunctPassSubseq(s[1..]);
      if IsWord(s[0]) || IsSpace(s[0]) {
        SubseqKeep(s[0], PunctPass(s[1..]), s);
      } else {
        assert PunctPass(s) == PunctPass(s[1..]);
        SubseqSkip(PunctPass(s[1..]), s);
      }
    }
  }

  /** The punctuation pass keeps exactly the word and whitespace characters,
      with their multiplicities. */
  lemma {:induction false} PunctPassCounts(s: string)
    ensures forall c :: multiset(PunctPass(s))[c] == if IsWord(c) || IsSpace(c) then multiset(s)[c] else 0
    decreases |s|
  {
    if s != [] {
      PunctPassCounts(s[1..]);
      assert s == [s[0]] + s[1..];
      assert multiset(s) == multiset{s[0]} + multiset(s[1..]);
      if IsWord(s[0]) || IsSpace(s[0]) {
        assert multiset(PunctPass(s)) == multiset{s[0]} + multiset(PunctPass(s[1..]));
      } else {
        assert PunctPass(s) == PunctPass(s[1..]);
      }
    }
  }

  /** The punctuation pass works one character at a time, so it distributes
      over concatenation. */
  lemma {:induction false} PunctPassConcat(a: string, b: string)
    ensures PunctPass(a + b) == PunctPass(a) + PunctPass(b)
    decreases |a|
  {
    if a == [] {
      assert a + b == b;
    } else {
      assert (a + b)[0] == a[0] && (a + b)[1..] == a[1..] + b;
      PunctPassConcat(a[1..], b);
      var c := if IsWord(a[0]) || IsSpace(a[0]) then [a[0]] else [];
      PrefixSplit(c, PunctPass(a[1..]), PunctPass(b), PunctPass(a), PunctPass(a + b));
    }
  }

  /** Text made of word and whitespace characters passes unchanged. */
  lemma {:induction false} PunctPassKeepsAll(s: string)
    requires forall i :: 0 <= i < |s| ==> IsWord(s[i]) || IsSpace(s[i])
    ensures PunctPass(s) == s
    decreases |s|
  {
    if s != [] {
      PunctPassKeepsAll(s[1..]);
    }
  }

  /** Text made of punctuation and other non-word, non-whitespace characters
      goes entirely. */
  lemma {:induction false} PunctPassDeletesAll(s: string)
    requires forall i :: 0 <= i < |s| ==> !IsWord(s[i]) && !IsSpace(s[i])
    ensures PunctPass(s) == []
    decreases |s|
  {
    if s != [] {
      PunctPassDeletesAll(s[1..]);
    }
  }

  /** The digit pass only deletes characters. */
  lemma {:induction false} DigitPassSubseq(s: string)
    ensures IsSubseq(DigitPass(s), s)
    decreases |s|
  {
    if s != [] {
      DigitPassSubseq(s[1..]);
      if IsDigit(s[0]) {
        assert DigitPass(s) == DigitPass(s[1..]);
        SubseqSkip(DigitPass(s[1..]), s);
      } else {
        SubseqKeep(s[0], DigitPass(s[1..]), s);
      }
    }
  }

  /** The digit pass keeps exactly the non-digits, with their multiplicities. */
  lemma {:induction false} DigitPassCounts(s: string)
    ensures forall c :: multiset(DigitPass(s))[c] == if IsDigit(c) then 0 else multiset(s)[c]
    decreases |s|
  {
    if s != [] {
      DigitPassCounts(s[1..]);
      assert s == [s[0]] + s[1..];
      assert multiset(s) == multiset{s[0]} + multiset(s[1..]);
      if IsDigit(s[0]) {
        assert DigitPass(s) == DigitPass(s[1..]);
      } else {
        assert multiset(DigitPass(s)) == multiset{s[0]} + multiset(DigitPass(s[1..]));
      }
    }
  }

  /** Text without digits passes the digit pass unchanged. */
  lemma {:induction false} DigitPassKeepsAll(s: string)
    requires forall i :: 0 <= i < |s| ==> !IsDigit(s[i])
    ensures DigitPass(s) == s
    decreases |s|
  {
    if s != [] {
      DigitPassKeepsAll(s[1..]);
    }
  }

  lemma {:induction false} PunctPassSpaces(s: string)
    ensures Spaces(PunctPass(s)) == Spaces(s)
    decreases |s|
  {
    if s != [] {
      PunctPassSpaces(s[1..]);
      assert s == [s[0]] + s[1..];
      SpacesCons(s[0], s[1..]);
      if IsWord(s[0]) || IsSpace(s[0]) {
        SpacesCons(s[0], PunctPass(s[1..]));
      } else {
        assert PunctPass(s) == PunctPass(s[1..]);
      }
    }
  }

  lemma {:induction false} DigitPassSpaces(s: string)
    ensures Spaces(DigitPass(s)) == Spaces(s)
    decreases |s|
  {
    if s != [] {
      DigitPassSpaces(s[1..]);
      assert s == [s[0]] + s[1..];
      SpacesCons(s[0], s[1..]);
      if IsDigit(s[0]) {
        assert DigitPass(s) == DigitPass(s[1..]);
      } else {
        SpacesCons(s[0], DigitPass(s[1..]));
      }
    }
  }

  // ---------------------------------------------------------------------------
  // Strip

  lemma StripSubseq(s: string)
    ensures IsSubseq(Strip(s), s)
  {
    var l := StripLeft(s);
    SubseqSuffix(s, |s| - |l|);
    SubseqPrefix(l, |Strip(s)|);
    SubseqTrans(Strip(s), l, s);
  }

  // ---------------------------------------------------------------------------
  // clean_tweet

  /** A value that is not a string cleans to the empty string. */
  lemma CleanTweetNotStr()
    ensures CleanTweet(NotStr) == ""
  {
  }

  /** The output never begins or ends with whitespace. */
  lemma CleanTweetTrimmed(x: Input)
    ensures var r := CleanTweet(x); r == [] || (!IsSpace(r[0]) && !IsSpace(r[|r| - 1]))
  {
  }

  /** Every pass only deletes: the output is a subsequence of the lowercased
      input, and so no longer than the input. */
  lemma CleanTweetSubseq(s: string)
    ensures IsSubseq(CleanTweet(Str(s)), Lower(s))
    ensures |CleanTweet(Str(s))| <= |s|
  {
    var low := Lower(s);
    var a := UrlPass(low);
    var b := TagPass(a);
    var c := PunctPass(b);
    var d := DigitPass(c);
    UrlPassSubseq(low);
    TagPassSubseq(a);
    PunctPassSubseq(b);
    DigitPassSubseq(c);
    StripSubseq(d);
    SubseqTrans(b, a, low);
    SubseqTrans(c, b, low);
    SubseqTrans(d, c, low);
    SubseqTrans(Strip(d), d, low);
    SubseqElements(Strip(d), low);
  }

  /** Every output character is a lowercase letter, `_` or whitespace: no
      digit, no punctuation, no `@` or `#`, no uppercase letter survives. */
  lemma CleanTweetAlphabet(s: string)
    ensures forall c :: c in CleanTweet(Str(s)) ==> IsLower(c) || c == '_' || IsSpace(c)
  {
    var low := Lower(s);
    var a := UrlPass(low);
    var b := TagPass(a);
    var c := PunctPass(b);
    var d := DigitPass(c);
    LowerFacts(s);
    UrlPassSubseq(low);
    TagPassSubseq(a);
    SubseqTrans(b, a, low);
    SubseqElements(b, low);
    PunctPassSubseq(b);
    PunctPassCounts(b);
    SubseqElements(c, b);
    DigitPassSubseq(c);
    DigitPassCounts(c);
    SubseqElements(d, c);
    StripSubseq(d);
    SubseqElements(Strip(d), d);
    forall x | x in Strip(d)
      ensures IsLower(x) || x == '_' || IsSpace(x)
    {
      assert x in d && x in c && x in b;
      assert multiset(d)[x] > 0 && multiset(c)[x] > 0;
    }
  }

  /** The four substitution passes keep every whitespace character of the
      input, in order, and `strip()` then removes only a whitespace prefix and
      a whitespace suffix: inner runs of whitespace are never collapsed. */
  lemma CleanTweetKeepsInnerSpaces(s: string)
    ensures Spaces(Scrub(s)) == Spaces(s)
    ensures var t, k, n := Scrub(s), |Scrub(s)| - |StripLeft(Scrub(s))|, |CleanTweet(Str(s))|;
      k + n <= |t| && t == t[..k] + CleanTweet(Str(s)) + t[k + n..] && AllSpace(t[..k]) && AllSpace(t[k + n..])
  {
    ScrubSpaces(s);
    StripInfix(Scrub(s));
  }

  /** The four substitution passes keep every whitespace character, in order. */
  lemma ScrubSpaces(s: string)
    ensures Spaces(Scrub(s)) == Spaces(s)
  {
    var low := Lower(s);
    var a := UrlPass(low);
    var b := TagPass(a);
    var c := PunctPass(b);
    LowerSpaces(s);
    UrlPassSpaces(low);
    TagPassSpaces(a);
    PunctPassSpaces(b);
    DigitPassSpaces(c);
  }
}
