/** What `home` guarantees about source precedence, the empty-text
    short-circuit and the labels it can show. */
module HandlerLemmas {
  import opened Normalizer
  import opened Handler

  /** The two recogniser exceptions cannot be told apart by the caller, and
      both look like silence. */
  lemma FailuresLookAlike(r1: AudioSource -> Recognition, r2: AudioSource -> Recognition, src: AudioSource)
    requires r1(src) == UnknownValue && r2(src) == RequestError
    ensures TranscribeAudio(r1, src) == TranscribeAudio(r2, src) == ""
  {
  }

  /** A submitted audio file is transcribed, whatever the video and the text
      field hold. */
  lemma AudioFirst(form: Form, recognize: AudioSource -> Recognition)
    requires Submitted(form.audio)
    ensures Transcript(form, recognize) == TranscribeAudio(recognize, AudioFile(form.audio.value.filename))
    ensures forall tweet, video :: Transcript(Form(tweet, form.audio, video), recognize) == Transcript(form, recognize)
  {
  }

  /** Without a submitted audio file, a submitted video is transcribed,
      whatever the text field holds. */
  lemma VideoSecond(form: Form, recognize: AudioSource -> Recognition)
    requires !Submitted(form.audio) && Submitted(form.video)
    ensures Transcript(form, recognize) == TranscribeAudio(recognize, VideoTrack(form.video.value.filename))
    ensures forall tweet :: Transcript(Form(tweet, form.audio, form.video), recognize) == Transcript(form, recognize)
  {
  }

  /** Without media the stripped text field is the transcript, and the
      recogniser is never consulted. */
  lemma TextLast(form: Form, r1: AudioSource -> Recognition, r2: AudioSource -> Recognition)
    requires !Submitted(form.audio) && !Submitted(form.video)
    ensures Transcript(form, r1) == Transcript(form, r2) == TextInput(form)
    ensures form.tweet == None ==> Transcript(form, r1) == ""
  {
  }

  /** A GET renders the form without a prediction. */
  lemma HomeGet(recognize: AudioSource -> Recognition, predict: string -> int)
    ensures Home(Get, recognize, predict) == Page(None)
  {
  }

  /** Empty cleaned text gives the fixed message and the classifier is never
      consulted: any two classifiers give the same response. */
  lemma EmptyShortCircuit(form: Form, recognize: AudioSource -> Recognition, p1: string -> int, p2: string -> int)
    requires CleanTweet(Str(Transcript(form, recognize))) == ""
    ensures Home(Post(form), recognize, p1) == Home(Post(form), recognize, p2) == Page(Some(NoText))
  {
  }

  /** Audio that the service cannot understand, or a failed service request,
      ends in the fixed message. */
  lemma UnintelligibleAudio(form: Form, recognize: AudioSource -> Recognition, predict: string -> int)
    requires Submitted(form.audio)
    requires !recognize(AudioFile(form.audio.value.filename)).Recognized?
    ensures Home(Post(form), recognize, predict) == Page(Some(NoText))
  {
  }

  /** The four strings a POST can show. */
  const Predictions: set<string> := {HateSpeech, Offensive, Neither, NoText}

  /** Labels 0, 1 and 2 name the three categories; any other label raises
      `KeyError` instead of showing a category. */
  lemma LabelMapping(cleaned: string, predict: string -> int)
    requires cleaned != ""
    ensures predict(cleaned) == 0 ==> Classify(cleaned, predict) == Page(Some(HateSpeech))
    ensures predict(cleaned) == 1 ==> Classify(cleaned, predict) == Page(Some(Offensive))
    ensures predict(cleaned) == 2 ==> Classify(cleaned, predict) == Page(Some(Neither))
    ensures !(0 <= predict(cleaned) <= 2) <==> Classify(cleaned, predict) == KeyError(predict(cleaned))
  {
  }

  /** The response to non-empty or empty cleaned text: one of exactly four
      strings, the message being none of the three categories; the
      classifier is consulted exactly when the text is non-empty, and a
      `KeyError` comes only from a label outside 0..2. */
  lemma ClassifyOutcomes(cleaned: string, predict: string -> int)
    ensures var r := Classify(cleaned, predict);
      (r.Page? ==> r.prediction.Some? && r.prediction.value in Predictions) &&
      (r == Page(Some(NoText)) <==> cleaned == "") &&
      (r.KeyError? <==> cleaned != "" && !(0 <= predict(cleaned) <= 2))
  {
  }

  /** After a POST, the same holds of the cleaned transcript. */
  lemma PostOutcomes(form: Form, recognize: AudioSource -> Recognition, predict: string -> int)
    ensures var r := Home(Post(form), recognize, predict);
      var cleaned := CleanTweet(Str(Transcript(form, recognize)));
      (r.Page? ==> r.prediction.Some? && r.prediction.value in Predictions) &&
      (r == Page(Some(NoText)) <==> cleaned == "") &&
      (r.KeyError? <==> cleaned != "" && !(0 <= predict(cleaned) <= 2))
  {
    ClassifyOutcomes(CleanTweet(Str(Transcript(form, recognize))), predict);
  }
}
