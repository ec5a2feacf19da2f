/**
 * The text normaliser `clean_tweet`: a guard against non-string input, then
 * lowercasing, four `re.sub(..., '', ...)` deletion passes and a final strip.
 * Each pass is a recursive function that scans the text left to right the way
 * `re.sub` does: at each position it either deletes a match and resumes after
 * it, or keeps the character and advances by one.
 */
module Normalizer {
  import opened Chars
  import opened Subsequences

  /** The argument of `clean_tweet`: a Python `str`, or any other value. */
  datatype Input = Str(s: string) | NotStr

  /** Lowercasing, one character at a time. */
  function Lower(s: string): string
  {
    seq(|s|, i requires 0 <= i < |s| => ToLower(s[i]))
  }

  // ---------------------------------------------------------------------------
  // Pass 1: URLs

  /** `s` begins with a match of `http\S+`. */
  predicate StartsHttp(s: string)
  {
    |s| >= 5 && s[0] == 'h' && s[1] == 't' && s[2] == 't' && s[3] == 'p' && !IsSpace(s[4])
  }

  /** `s` begins with a match of `www\S+`. */
  predicate StartsWww(s: string)
  {
    |s| >= 4 && s[0] == 'w' && s[1] == 'w' && s[2] == 'w' && !IsSpace(s[3])
  }

  /** `s` begins with a match of `https\S+`. */
  predicate StartsHttps(s: string)
  {
    |s| >= 6 && s[0] == 'h' && s[1] == 't' && s[2] == 't' && s[3] == 'p' && s[4] == 's' && !IsSpace(s[5])
  }

  /** Some alternative of the URL pattern matches at the start of `s`. */
  predicate StartsUrl(s: string)
  {
    StartsHttp(s) || StartsWww(s) || StartsHttps(s)
  }

  /** The length of the longest whitespace-free prefix of `s`: where a greedy
      `\S+` that starts inside that prefix stops. */
  function TokenLength(s: string): (n: nat)
    ensures n <= |s|
    ensures forall i :: 0 <= i < n ==> !IsSpace(s[i])
    ensures n == |s| || IsSpace(s[n])
  {
    if s == [] || IsSpace(s[0]) then 0 else 1 + TokenLength(s[1..])
  }

  /** Deletes every match of the URL pattern (`http`, `www` or `https`, then
      `\S+`). Each `\S+` is greedy, so a match that starts at `http` or `www`
      runs to the next whitespace or to the end of the text. */
  function UrlPass(s: string): string
    decreases |s|
  {
    if s == [] then []
    else if StartsUrl(s) then UrlPass(s[TokenLength(s)..])
    else [s[0]] + UrlPass(s[1..])
  }

  // ---------------------------------------------------------------------------
  // Pass 2: mentions and hashtags

  /** `s` begins with a match of `@\w+` or `#\w+`. */
  predicate StartsTag(s: string)
  {
    |s| >= 2 && (s[0] == '@' || s[0] == '#') && IsWord(s[1])
  }

  /** The length of the longest prefix of word characters: a greedy `\w+`. */
  function WordLength(s: string): (n: nat)
    ensures n <= |s|
    ensures forall i :: 0 <= i < n ==> IsWord(s[i])
    ensures n == |s| || !IsWord(s[n])
  {
    if s == [] || !IsWord(s[0]) then 0 else 1 + WordLength(s[1..])
  }

  /** Deletes every mention or hashtag: `@` or `#` followed by a greedy `\w+`. */
  function TagPass(s: string): string
    decreases |s|
  {
    if s == [] then []
    else if StartsTag(s) then TagPass(s[1 + WordLength(s[1..])..])
    else [s[0]] + TagPass(s[1..])
  }

  // ---------------------------------------------------------------------------
  // Pass 3: punctuation   Pass 4: digits

  /** Deletes every character that is neither a word character nor whitespace. */
  function PunctPass(s: string): string
  {
    if s == [] then []
    else (if IsWord(s[0]) || IsSpace(s[0]) then [s[0]] else []) + PunctPass(s[1..])
  }

  /** Deletes the runs of digits; deleting every maximal run of digits deletes
      exactly the digits. */
  function DigitPass(s: string): string
  {
    if s == [] then []
    else (if IsDigit(s[0]) then [] else [s[0]]) + DigitPass(s[1..])
  }

  // ---------------------------------------------------------------------------
  // Strip

  /** Every character of `s` is whitespace. */
  predicate AllSpace(s: string)
  {
    forall i :: 0 <= i < |s| ==> IsSpace(s[i])
  }

  /** `s` with its leading whitespace removed. */
  function StripLeft(s: string): (r: string)
    ensures |r| <= |s| && r == s[|s| - |r|..]
    ensures forall i :: 0 <= i < |s| - |r| ==> IsSpace(s[i])
    ensures r == [] || !IsSpace(r[0])
  {
    if s != [] && IsSpace(s[0]) then StripLeft(s[1..]) else s
  }

  /** `s` with its trailing whitespace removed. */
  function StripRight(s: string): (r: string)
    ensures |r| <= |s| && r == s[..|r|]
    ensures forall i :: |r| <= i < |s| ==> IsSpace(s[i])
    ensures r == [] || !IsSpace(r[|r| - 1])
  {
    if s != [] && IsSpace(s[|s| - 1]) then StripRight(s[..|s| - 1]) else s
  }

  /** Python's `strip()` without arguments: removes the whitespace at both ends. */
  function Strip(s: string): (r: string)
    ensures r == [] || (!IsSpace(r[0]) && !IsSpace(r[|r| - 1]))
  {
    StripRight(StripLeft(s))
  }

  /** A whitespace-only prefix cut from `s` leaves `l`, and a whitespace-only
      suffix cut from `l` leaves `r`: then `r` sits between the two cuts. */
  lemma Infix(s: string, l: string, r: string)
    requires |l| <= |s| && l == s[|s| - |l|..]
    requires forall i :: 0 <= i < |s| - |l| ==> IsSpace(s[i])
    requires |r| <= |l| && r == l[..|r|]
    requires forall i :: |r| <= i < |l| ==> IsSpace(l[i])
    ensures var k, n := |s| - |l|, |r|;
      k + n <= |s| && s == s[..k] + r + s[k + n..] && AllSpace(s[..k]) && AllSpace(s[k + n..])
  {
    var k := |s| - |l|;
    assert s == s[..k] + l;
    assert l == r + l[|r|..];
    assert l[|r|..] == s[k + |r|..];
  }

  /** `strip()` cuts a whitespace-only prefix and a whitespace-only suffix and
      keeps everything between them, inner whitespace included. */
  lemma StripInfix(s: string)
    ensures var k, n := |s| - |StripLeft(s)|, |Strip(s)|;
      k + n <= |s| && s == s[..k] + Strip(s) + s[k + n..] && AllSpace(s[..k]) && AllSpace(s[k + n..])
  {
    Infix(s, StripLeft(s), Strip(s));
  }

  // ---------------------------------------------------------------------------
  // The whole normaliser

  /** The four substitution passes applied to the lowercased text. */
  function Scrub(s: string): string
  {
    DigitPass(PunctPass(TagPass(UrlPass(Lower(s)))))
  }

  /** The normaliser: non-string input gives the empty string; a string is
      lowercased, scrubbed and stripped. */
  function CleanTweet(x: Input): string
  {
    match x
    case NotStr => ""
    case Str(s) => Strip(Scrub(s))
  }
}
