/**
 * Retrieval of the transcript (app.py, `extract_transcript_details`): choose a
 * caption track, join its segment texts with single spaces, and translate the
 * result only when the track's language is not the target language. Any
 * exception on the way, including indexing an empty list of tracks, makes the
 * function return `None`.
 */
module Transcript {
  import opened Options
  import opened Strings
  import opened Services

  /** The language preferred when it is available. */
  const PreferredLanguage: string := "en"

  /**
   * The track choice: the preferred language when it is listed, otherwise the
   * first listed code; no choice at all (the `IndexError` of `[0]`) when
   * nothing is listed.
   */
  function SelectLanguage(codes: seq<string>): (r: Option<string>)
    ensures r.None? <==> |codes| == 0
    ensures r.Some? ==> r.value in codes
    ensures r == Some(PreferredLanguage) <==> PreferredLanguage in codes
    ensures r.Some? && r.value != PreferredLanguage ==> r.value == codes[0]
  {
    if PreferredLanguage in codes then Some(PreferredLanguage)
    else if |codes| == 0 then None
    else Some(codes[0])
  }

  /** The texts of the segments, in segment order. */
  function Texts(segments: seq<Segment>): seq<string>
  {
    seq(|segments|, k requires 0 <= k < |segments| => segments[k].text)
  }

  /** `" ".join(segment['text'] for segment in transcript)`. */
  function JoinSegments(segments: seq<Segment>): string
  {
    Join(Texts(segments), " ")
  }

  /** What the transcript step yields, with the service calls it made on the way. */
  datatype Fetched = Fetched(transcript: Option<string>, calls: seq<Call>)

  /** The track language chosen from the listing, if the listing succeeded and a choice exists. */
  function ChosenLanguage(env: Env, videoId: string): Option<string>
  {
    match env.listTranscripts(videoId)
    case None => None
    case Some(codes) => SelectLanguage(codes)
  }

  /** The segments of the chosen track, if every step up to fetching them succeeded. */
  function ChosenSegments(env: Env, videoId: string): (r: Option<seq<Segment>>)
    ensures r.Some? ==> ChosenLanguage(env, videoId).Some?
  {
    match ChosenLanguage(env, videoId)
    case None => None
    case Some(code) => env.getTranscript(videoId, code)
  }

  /**
   * `extract_transcript_details(video_id, target_language)`. The contract states
   * the gating of the translator: it is called, on the joined text, exactly when
   * the chosen track was fetched and its language is not the target language;
   * then the result is the translation. The log lists the calls in the order
   * made: the listing, the chosen track, the translator. When the track is in the target
   * language the result is the joined text unchanged, and when any step before
   * fails, including an empty listing, the result is `None`.
   */
  function ExtractTranscriptDetails(env: Env, videoId: string, target: string): (f: Fetched)
    ensures |f.calls| >= 1 && f.calls[0] == ListTranscripts(videoId)
    ensures !CallsGenerator(f.calls)
    ensures env.listTranscripts(videoId) == Some([]) ==> f == Fetched(None, [ListTranscripts(videoId)])
    ensures CallsTranslator(f.calls) <==>
      ChosenSegments(env, videoId).Some? && ChosenLanguage(env, videoId).value != target
    ensures ChosenSegments(env, videoId).None? ==> f.transcript == None
    ensures ChosenSegments(env, videoId).Some? && ChosenLanguage(env, videoId).value == target ==>
      f.transcript == Some(JoinSegments(ChosenSegments(env, videoId).value))
    ensures ChosenSegments(env, videoId).Some? && ChosenLanguage(env, videoId).value != target ==>
      var joined := JoinSegments(ChosenSegments(env, videoId).value);
      f.transcript == env.translate(joined, target) &&
      f.calls == [ListTranscripts(videoId), GetTranscript(videoId, ChosenLanguage(env, videoId).value),
                  Translate(joined, target)]
    ensures !CallsTranslator(f.calls) ==>
      f.calls == [ListTranscripts(videoId)] +
                 (if ChosenLanguage(env, videoId).Some? then [GetTranscript(videoId, ChosenLanguage(env, videoId).value)] else [])
  {
    var listed := [ListTranscripts(videoId)];
    match env.listTranscripts(videoId)
    case None => Fetched(None, listed)
    case Some(codes) =>
      match SelectLanguage(codes)
      case None => Fetched(None, listed)
      case Some(code) =>
        var fetched := listed + [GetTranscript(videoId, code)];
        assert !CallsTranslator(fetched) && !CallsGenerator(fetched) by {
          forall k | 0 <= k < |fetched| ensures !fetched[k].Translate? && !fetched[k].GenerateContent? { }
        }
        match env.getTranscript(videoId, code)
        case None => Fetched(None, fetched)
        case Some(segments) =>
          var joined := JoinSegments(segments);
          if code != target then
            var calls := fetched + [Translate(joined, target)];
            assert calls[2].Translate?;
            assert !CallsGenerator(calls) by {
              forall k | 0 <= k < |calls| ensures !calls[k].GenerateContent? { }
            }
            Fetched(env.translate(joined, target), calls)
          else
            Fetched(Some(joined), fetched)
  }

  /**
   * The joined transcript keeps every segment, in order: when no segment text
   * holds a space, splitting it at the spaces gives back exactly the segment
   * texts.
   */
  lemma JoinSegmentsKeepsOrder(segments: seq<Segment>)
    requires |segments| >= 1
    requires forall k :: 0 <= k < |segments| ==> ' ' !in segments[k].text
    ensures Split(JoinSegments(segments), " ") == Texts(segments)
  {
    var texts := Texts(segments);
    forall k | 0 <= k < |texts| ensures !Contains(texts[k], " ") {
      AbsentWithoutFirstChar(texts[k], " ");
    }
    SplitJoin(texts, " ");
  }

  /**
   * The length of the joined transcript: every segment's text plus one space
   * between each pair of neighbours.
   */
  lemma JoinSegmentsLength(segments: seq<Segment>)
    requires |segments| >= 1
    ensures |JoinSegments(segments)| == TotalLength(Texts(segments)) + |segments| - 1
  {
    JoinLength(Texts(segments), " ");
  }
}
