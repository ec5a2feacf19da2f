# Hate-speech form: text normaliser and request decision logic

This project models the logic of a small Flask application. The application
classifies a piece of text as "Hate Speech", "Offensive Language" or
"Neither". The text is typed into a form, or transcribed from an uploaded
audio file, or transcribed from the audio track of an uploaded video.

Two parts of `app.py` are modelled:

- `clean_tweet`, the text normaliser. It has a guard for non-string input,
  then lowercasing, then four regular-expression deletion passes (URLs,
  mentions and hashtags, punctuation, digits), then a strip. Each pass is a
  recursive function over `string` (module `Normalizer`, file
  `normalizer.dfy`). Each pass scans left to right the way Python's `re.sub`
  does: at each position it deletes a match and resumes after it, or keeps
  the character and moves on. The character classes (`\w`, `\d`, `\s`,
  `lower()`) are in `chars.dfy`. A small theory of subsequences is in
  `subseq.dfy`.
- The decision logic of the `/` route, `home` (module `Handler`, file
  `handler.dfy`). It chooses the transcript: an uploaded audio file first,
  then an uploaded video, then the stripped `tweet` field. It returns a fixed
  message when the cleaned text is empty. Otherwise it looks the classifier's
  label up in the fixed three-entry map. Speech recognition and the classifier
  are function parameters that the model never looks inside.

The properties are proved in `normalizer_lemmas.dfy`, `handler_lemmas.dfy`
and `worked_cases.dfy`. The last file works out concrete inputs pass by pass.

Two consequences of `clean_tweet` as written that are easy to miss:

- Deleting a hashtag keeps the whitespace on both sides of it, so the text
  around it is not rejoined with a single space:
  `"I #hate you!!! http://x.com"` cleans to `"i  you"`, with two spaces
  (`NormalizerLemmas.TagPassDropsTag` in general, `WorkedCases.HashtagSentence`
  on this sentence).
- Cleaning is not idempotent: `"ht.tpx"` cleans to `"httpx"`, and cleaning
  that again gives `""` (`WorkedCases.NotIdempotent`).

## Model

| member | source | states |
|---|---|---|
| `Normalizer.Lower` | app.py:21 | no contract of its own; its properties are `NormalizerLemmas.LowerFacts`, `LowerConcat` and `LowerFixpoint` |
| `Normalizer.UrlPass` | app.py:22 | no contract of its own; its properties are the `NormalizerLemmas.UrlPass*` lemmas below |
| `Normalizer.TagPass` | app.py:23 | no contract of its own; its properties are the `NormalizerLemmas.TagPass*` lemmas below |
| `Normalizer.PunctPass` | app.py:24 | no contract of its own; its properties are the `NormalizerLemmas.PunctPass*` lemmas below |
| `Normalizer.DigitPass` | app.py:25 | no contract of its own; its properties are the `NormalizerLemmas.DigitPass*` lemmas below |
| `Normalizer.Scrub` | app.py:21-25 | no contract of its own; its properties are `NormalizerLemmas.ScrubSpaces`, `CleanTweetSubseq` and `CleanTweetAlphabet` |
| `Normalizer.CleanTweet` | app.py:18-26 | no contract of its own; its properties are the `NormalizerLemmas.CleanTweet*` lemmas and the `WorkedCases` lemmas |
| `Handler.TranscribeAudio` | app.py:28-37 | no contract of its own; its property is `HandlerLemmas.FailuresLookAlike` |
| `Handler.TranscribeVideo` | app.py:39-43 | no contract of its own; its property is `HandlerLemmas.VideoSecond` |
| `Handler.Submitted` | app.py:55-60 | no contract of its own; used by `HandlerLemmas.AudioFirst`, `VideoSecond` and `TextLast` |
| `Handler.TextInput` | app.py:49 | no contract of its own; its property is `HandlerLemmas.TextLast` |
| `Handler.Transcript` | app.py:53-63 | no contract of its own; its properties are `HandlerLemmas.AudioFirst`, `VideoSecond` and `TextLast` |
| `Handler.Classify` | app.py:65-72 | no contract of its own; its properties are `HandlerLemmas.EmptyShortCircuit`, `LabelMapping` and `ClassifyOutcomes` |
| `Handler.Home` | app.py:45-74 | no contract of its own; its properties are `HandlerLemmas.HomeGet`, `UnintelligibleAudio` and `PostOutcomes` |
| `Chars.IsUpper` | app.py:21 | no contract of its own; the letters `lower()` changes, used by `Chars.ToLower` and `NormalizerLemmas.LowerFacts` |
| `Chars.IsLower` | app.py:23-24 | no contract of its own; part of `\w`, used by `Chars.IsWord` and `NormalizerLemmas.CleanTweetAlphabet` |
| `Chars.IsDigit` | app.py:25 | no contract of its own; `\d`, used by `NormalizerLemmas.DigitPassCounts` |
| `Chars.IsWord` | app.py:23-24 | no contract of its own; `\w`, used by `Normalizer.WordLength`, `NormalizerLemmas.TagPassTagFree` and `PunctPassCounts` |
| `Chars.IsSpace` | app.py:22-26 | no contract of its own; `\s` and the whitespace `strip()` removes, used by `Normalizer.TokenLength`, `Strip` and the `*Spaces` lemmas |
| `Normalizer.StartsHttp` | app.py:22 | no contract of its own; the `http\S+` alternative, used by `NormalizerLemmas.HttpsSubsumed` |
| `Normalizer.StartsWww` | app.py:22 | no contract of its own; the `www\S+` alternative, used by `Normalizer.StartsUrl` |
| `Normalizer.StartsHttps` | app.py:22 | no contract of its own; the `https\S+` alternative, used by `NormalizerLemmas.HttpsSubsumed` |
| `Normalizer.StartsUrl` | app.py:22 | no contract of its own; a match of the URL pattern starts here, used by `NormalizerLemmas.UrlPassUrlFree` and `UrlPassDropsUrl` |
| `Normalizer.StartsTag` | app.py:23 | no contract of its own; a match of `@\w+` or `#\w+` starts here, used by `NormalizerLemmas.TagPassTagFree` and `TagPassDropsTag` |
| `Handler.Labels` | app.py:69 | a constant, no contract; its entries are stated by `HandlerLemmas.LabelMapping` |
| `Chars.ToLower` | app.py:21 | the result is never an uppercase ASCII letter; an uppercase letter becomes the matching lowercase letter; every other character is unchanged |
| `Chars.ToLowerKeepsClasses` | app.py:21-25 | lowercasing keeps each character's membership of whitespace, word characters and digits, so the later passes treat a character the same before and after lowercasing |
| `Normalizer.TokenLength` | app.py:22 | the span a greedy `\S+` covers: no whitespace inside it, and it ends at whitespace or at the end of the text |
| `Normalizer.WordLength` | app.py:23 | the span a greedy `\w+` covers: only word characters inside it, and it ends at a non-word character or at the end of the text |
| `Normalizer.StripLeft` | app.py:26 | the result is a suffix of the input; everything cut off is whitespace; the result is empty or starts with a non-whitespace character |
| `Normalizer.StripRight` | app.py:26 | the result is a prefix of the input; everything cut off is whitespace; the result is empty or ends with a non-whitespace character |
| `Normalizer.Strip` | app.py:26 | the result neither starts nor ends with whitespace |
| `Normalizer.StripInfix` | app.py:26 | strip cuts one whitespace-only prefix and one whitespace-only suffix and keeps the middle unchanged |
| `NormalizerLemmas.LowerFacts` | app.py:21 | lowercasing keeps the length and every whitespace character, and leaves no uppercase letter |
| `NormalizerLemmas.LowerConcat` | app.py:21 | lowercasing works character by character, so it distributes over concatenation |
| `NormalizerLemmas.LowerFixpoint` | app.py:21 | text without uppercase letters is unchanged by lowercasing |
| `NormalizerLemmas.HttpsSubsumed` | app.py:22 | wherever the `https\S+` alternative matches, `http\S+` matches too, so that alternative never adds a match |
| `NormalizerLemmas.UrlPassSubseq` | app.py:22 | the URL pass only deletes: its output is a subsequence of its input |
| `NormalizerLemmas.UrlPassSpaces` | app.py:22 | the URL pass keeps every whitespace character, in order |
| `NormalizerLemmas.UrlPassHead` | app.py:22 | the leading whitespace-free run of the output is a prefix of the input, because each deletion is followed by whitespace or the end |
| `NormalizerLemmas.UrlPassUrlFree` | app.py:22 | after the URL pass, no `http` or `www` anywhere is followed by a non-whitespace character |
| `NormalizerLemmas.UrlPassFixpoint` | app.py:22 | text that contains no URL match passes through the URL pass unchanged |
| `NormalizerLemmas.UrlPassIdempotent` | app.py:22 | applying the URL pass twice gives the same result as applying it once |
| `NormalizerLemmas.UrlPassConcat` | app.py:22 | a URL match never spans whitespace: the pass on text up to a whitespace character and the text after it is the concatenation of the two passes |
| `NormalizerLemmas.UrlPassKeepsBefore` | app.py:22 | only the match is deleted: text in which no URL starts is kept in front of whatever the pass makes of the rest, even inside the same token |
| `NormalizerLemmas.TokenLengthRun` | app.py:22 | a whitespace-free run followed by whitespace or the end is exactly the span a greedy `\S+` covers from its front |
| `NormalizerLemmas.StartsUrlExtend` | app.py:22 | text appended after a URL start does not undo the match |
| `NormalizerLemmas.UrlPassUrlFront` | app.py:22 | a URL at the front is deleted as a whole, up to the next whitespace or the end |
| `NormalizerLemmas.UrlPassDropsUrl` | app.py:22 | each deleted span is exactly one match: it begins where `http` or `www` starts, the text before it is kept, and it runs to the next whitespace or the end |
| `NormalizerLemmas.UrlFreeNoInitials` | app.py:22 | text with no `h` and no `w` contains no URL match |
| `NormalizerLemmas.TagPassSubseq` | app.py:23 | the mention/hashtag pass only deletes: its output is a subsequence of its input |
| `NormalizerLemmas.TagPassSpaces` | app.py:23 | the mention/hashtag pass keeps every whitespace character, in order |
| `NormalizerLemmas.TagPassHead` | app.py:23 | a word character at the front of the output was at the front of the input, because each deletion is followed by a non-word character or the end |
| `NormalizerLemmas.TagPassTagFree` | app.py:23 | after the pass, no `@` or `#` anywhere is followed by a word character |
| `NormalizerLemmas.TagPassFixpoint` | app.py:23 | text that contains no mention or hashtag passes through unchanged |
| `NormalizerLemmas.TagPassIdempotent` | app.py:23 | applying the mention/hashtag pass twice gives the same result as applying it once |
| `NormalizerLemmas.TagPassConcat` | app.py:23 | a mention or hashtag never spans whitespace: the pass works separately on the two sides of a whitespace character |
| `NormalizerLemmas.WordLengthStops` | app.py:23 | a greedy `\w+` run stops at the first non-word character: text after a non-word character does not change its length |
| `NormalizerLemmas.TagPassSplitAtNonWord` | app.py:23 | a tag's `\w+` run stops at a non-word character, so the pass works separately on the text before any non-word character and on the text from it on |
| `NormalizerLemmas.TagPassLoneMarker` | app.py:23 | an `@` or `#` not followed by a word character is no tag: it survives the pass wherever it stands, and the text on each side is passed on its own |
| `NormalizerLemmas.TagPassTagFront` | app.py:23 | a marker then a non-empty word at the front is deleted as a whole, up to the first non-word character |
| `NormalizerLemmas.TagPassDropsTag` | app.py:23 | a tag anywhere in the text, inside a token too, is deleted up to the first non-word character, and the text on both sides stays as the pass leaves it, whitespace included |
| `NormalizerLemmas.TagFreeNoMarkers` | app.py:23 | text with no `@` and no `#` contains no tag |
| `NormalizerLemmas.PunctPassSubseq` | app.py:24 | the punctuation pass only deletes |
| `NormalizerLemmas.PunctPassCounts` | app.py:24 | the punctuation pass keeps every word and whitespace character, as many times as it occurs, and nothing else |
| `NormalizerLemmas.PunctPassSpaces` | app.py:24 | the punctuation pass keeps every whitespace character, in order |
| `NormalizerLemmas.PunctPassConcat` | app.py:24 | the punctuation pass works character by character, so it distributes over concatenation |
| `NormalizerLemmas.PunctPassKeepsAll` | app.py:24 | text made only of word and whitespace characters is unchanged |
| `NormalizerLemmas.PunctPassDeletesAll` | app.py:24 | text with no word and no whitespace character is deleted entirely |
| `NormalizerLemmas.DigitPassSubseq` | app.py:25 | the digit pass only deletes |
| `NormalizerLemmas.DigitPassCounts` | app.py:25 | the digit pass deletes every digit and keeps every other character, as many times as it occurs |
| `NormalizerLemmas.DigitPassSpaces` | app.py:25 | the digit pass keeps every whitespace character, in order |
| `NormalizerLemmas.DigitPassKeepsAll` | app.py:25 | text without digits is unchanged |
| `NormalizerLemmas.StripSubseq` | app.py:26 | strip only deletes |
| `NormalizerLemmas.CleanTweetNotStr` | app.py:19-20 | a value that is not a string cleans to `""` |
| `NormalizerLemmas.CleanTweetTrimmed` | app.py:26 | the cleaned text neither starts nor ends with whitespace |
| `NormalizerLemmas.CleanTweetSubseq` | app.py:18-26 | the cleaned text is a subsequence of the lowercased input and no longer than the input |
| `NormalizerLemmas.CleanTweetAlphabet` | app.py:21-25 | every character of the cleaned text is a lowercase letter, `_` or whitespace: no digit, no punctuation, no `@` or `#`, no uppercase |
| `NormalizerLemmas.ScrubSpaces` | app.py:21-25 | lowercasing and the four passes keep exactly the whitespace characters of the input, in order |
| `NormalizerLemmas.CleanTweetKeepsInnerSpaces` | app.py:21-26 | the four passes keep every whitespace character of the input, in order, and the final strip removes only a whitespace prefix and a whitespace suffix, so inner whitespace is never collapsed |
| `WorkedCases.HashtagSentence` | app.py:18-26 | the pieces `"I "`, `"#hate "`, `"you!!! "` and `"http://x.com"`, concatenated, clean to `"i  you"`, with two spaces |
| `WorkedCases.UrlInsideToken` | app.py:22 | one worked example: `"xhttp://y"` keeps its `x` after the URL pass |
| `WorkedCases.MentionInsideToken` | app.py:23 | one worked example: `"john@example.com"` gives `"john.com"` after the mention pass |
| `WorkedCases.LoneMention` | app.py:23-24 | one worked example: `"@ x"` passes the mention pass unchanged and cleans to `"x"` (the general fact is `NormalizerLemmas.TagPassLoneMarker`) |
| `WorkedCases.NotIdempotent` | app.py:18-26 | `"ht.tpx"` cleans to `"httpx"`, and cleaning that again gives `""` |
| `HandlerLemmas.FailuresLookAlike` | app.py:32-37 | both recogniser exceptions give the same transcript, the empty one |
| `HandlerLemmas.AudioFirst` | app.py:53-58 | a submitted audio file (present, with a non-empty filename) is transcribed, whatever the video and the text field hold |
| `HandlerLemmas.VideoSecond` | app.py:60-63 | without a submitted audio file, a submitted video's audio track is transcribed, whatever the text field holds |
| `HandlerLemmas.TextLast` | app.py:49-63 | without media, the transcript is the stripped `tweet` field (empty when the field is missing), and the recogniser is never consulted |
| `HandlerLemmas.HomeGet` | app.py:47-48 | a GET renders the page without a prediction |
| `HandlerLemmas.EmptyShortCircuit` | app.py:65-72 | when the cleaned text is empty, the page shows `"Could not extract meaningful text."` and the response is the same for every classifier |
| `HandlerLemmas.UnintelligibleAudio` | app.py:28-72 | audio the service cannot understand, or a failed service request, ends in the fixed message |
| `HandlerLemmas.LabelMapping` | app.py:67-70 | for non-empty cleaned text, labels 0, 1 and 2 show "Hate Speech", "Offensive Language" and "Neither"; exactly the other labels raise `KeyError` |
| `HandlerLemmas.ClassifyOutcomes` | app.py:66-72 | the result is one of the four strings or a `KeyError`; it is the fixed message exactly when the text is empty; it is a `KeyError` exactly when the text is non-empty and the label is outside 0..2 |
| `HandlerLemmas.PostOutcomes` | app.py:48-72 | the same three facts hold of every POST, for the cleaned transcript |

## Left out

- Flask routing and template rendering (app.py:10, 45, 74) are web-framework plumbing. The model returns the prediction that would be rendered (`Handler.Response`).
- Loading the pickled model and vectoriser (app.py:15-16), the TF-IDF transform and `model.predict` (app.py:67-68) are a serialised ML artifact with floating-point internals. They are one opaque `string -> int` parameter, `predict`.
- The Google speech service (app.py:28-37) is a network call. It is an opaque parameter, `recognize`, that returns a transcript or one of the two exceptions; both exceptions become `""`.
- An audio file the recogniser library cannot open raises outside the `try` (app.py:30-31). That unhandled failure is not modelled.
- Audio extraction with moviepy (app.py:39-43) is a foreign library doing file I/O. The extracted track is the `VideoTrack` source handed to the same recogniser.
- A video moviepy cannot open, or one without an audio track, where `clip.audio` is `None` (app.py:41-42), raises outside any handler. That failure is not modelled: the model always transcribes a submitted video's track.
- `secure_filename`, the path join, `file.save` and `os.makedirs` (app.py:8, 12, 56-62) are an unseen library and filesystem effects. The recogniser receives the uploaded filename instead of the saved path.
- The race on the fixed `temp_audio.wav` path (app.py:40) is about concurrent requests, which a pure model does not have.
- Unicode: the character classes are ASCII only. `\s` and `strip()` share one whitespace predicate (tab, line feed, vertical tab, form feed, carriage return, U+001C to U+001F, space). Python's classes are Unicode-aware. In the model a non-ASCII character is not lowercased, is not a word character and is not whitespace, so the punctuation pass deletes it, while Python would keep a non-ASCII letter or digit.
- An upload whose filename is `None` is modelled as an upload with the empty filename; werkzeug treats both as not submitted.
- Idempotence of `clean_tweet` as a whole is not claimed, because it does not hold (`WorkedCases.NotIdempotent`). Only the URL pass and the mention pass are proved idempotent.
