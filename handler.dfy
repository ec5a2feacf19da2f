/**
 * The decision logic of the `/` route (`home`): which text is classified
 * (an uploaded audio file, else an uploaded video, else the typed text),
 * the short-circuit on empty cleaned text, and the fixed three-entry label
 * map. Speech recognition and the classifier are parameters: opaque
 * functions the model never looks inside.
 */
module Handler {
  import opened Normalizer

  datatype Option<+T> = None | Some(value: T)

  /** An entry of `request.files`; only its filename is observed. */
  datatype Upload = Upload(filename: string)

  /** The fields of a submitted form: `tweet`, `audio`, `video`, each of which may be missing. */
  datatype Form = Form(tweet: Option<string>, audio: Option<Upload>, video: Option<Upload>)

  datatype Request = Get | Post(form: Form)

  /** The audio handed to the speech recogniser: an uploaded audio file, or the
      audio track extracted from an uploaded video. */
  datatype AudioSource = AudioFile(name: string) | VideoTrack(name: string)

  /** The outcome of `recognize_google`: a transcript, or one of its two exceptions. */
  datatype Recognition = Recognized(text: string) | UnknownValue | RequestError

  /** What `home` produces: the page rendered with its prediction (none on a
      GET), or the `KeyError` that a label outside the map raises. */
  datatype Response = Page(prediction: Option<string>) | KeyError(key: int)

  const HateSpeech: string := "Hate Speech"
  const Offensive: string := "Offensive Language"
  const Neither: string := "Neither"
  const NoText: string := "Could not extract meaningful text."

  /** The hard-coded label map of `home`. */
  const Labels: map<int, string> := map[0 := HateSpeech, 1 := Offensive, 2 := Neither]

  /** `transcribe_audio`: both recogniser exceptions become the empty transcript. */
  function TranscribeAudio(recognize: AudioSource -> Recognition, src: AudioSource): string
  {
    match recognize(src)
    case Recognized(text) => text
    case UnknownValue => ""
    case RequestError => ""
  }

  /** `transcribe_video`: the extracted audio track goes through `transcribe_audio`. */
  function TranscribeVideo(recognize: AudioSource -> Recognition, name: string): string
  {
    TranscribeAudio(recognize, VideoTrack(name))
  }

  /** An upload counts as submitted when it is present and its filename is
      not empty (a werkzeug upload is falsy exactly when its filename is). */
  predicate Submitted(f: Option<Upload>)
  {
    f.Some? && f.value.filename != ""
  }

  /** The `tweet` field, empty when missing, with its outer whitespace stripped. */
  function TextInput(form: Form): string
  {
    Strip(match form.tweet case Some(t) => t case None => "")
  }

  /** The `if`/`elif` that chooses the transcript. */
  function Transcript(form: Form, recognize: AudioSource -> Recognition): string
  {
    if Submitted(form.audio) then TranscribeAudio(recognize, AudioFile(form.audio.value.filename))
    else if Submitted(form.video) then TranscribeVideo(recognize, form.video.value.filename)
    else TextInput(form)
  }

  /** Classifying the cleaned text: `predict` stands for the TF-IDF vectoriser
      followed by the pre-trained model, giving one label index. */
  function Classify(cleaned: string, predict: string -> int): Response
  {
    if cleaned == "" then Page(Some(NoText))
    else
      var index := predict(cleaned);
      if index in Labels then Page(Some(Labels[index])) else KeyError(index)
  }

  /** The `/` route: a GET renders the empty form, a POST classifies the chosen transcript. */
  function Home(req: Request, recognize: AudioSource -> Recognition, predict: string -> int): Response
  {
    match req
    case Get => Page(None)
    case Post(form) => Classify(CleanTweet(Str(Transcript(form, recognize))), predict)
  }
}
