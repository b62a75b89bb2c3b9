/**
 * The outside services the application calls, as opaque functions supplied by
 * the caller, and a log of the calls made to them. A service call that raises
 * an exception (network failure, no captions, missing response text) is a
 * function returning `None`.
 */
module Services {
  import opened Options

  /** One caption segment of a transcript track; only its text is used (its timing is discarded). */
  datatype Segment = Segment(text: string)

  /** A call to an outside service, with the arguments it was given. */
  datatype Call =
    | ListTranscripts(videoId: string)
    | GetTranscript(videoId: string, language: string)
    | Translate(text: string, target: string)
    | GenerateContent(transcript: string, keywords: string, target: string)

  /**
   * The services: the transcript listing (language codes in listing order), the
   * transcript of one track, the translator, and the generative model (the
   * fixed prompt wording around the transcript and keywords is part of it).
   */
  datatype Env = Env(
    listTranscripts: string -> Option<seq<string>>,
    getTranscript: (string, string) -> Option<seq<Segment>>,
    translate: (string, string) -> Option<string>,
    generate: (string, string, string) -> Option<string>)

  /** The log holds a call to the translator. */
  predicate CallsTranslator(calls: seq<Call>)
  {
    exists k :: 0 <= k < |calls| && calls[k].Translate?
  }

  /** The log holds a call to the transcript service for a track. */
  predicate CallsTranscript(calls: seq<Call>)
  {
    exists k :: 0 <= k < |calls| && (calls[k].ListTranscripts? || calls[k].GetTranscript?)
  }

  /** The log holds a call to the generative model. */
  predicate CallsGenerator(calls: seq<Call>)
  {
    exists k :: 0 <= k < |calls| && calls[k].GenerateContent?
  }
}
