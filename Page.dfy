/**
 * The page script (app.py, top level): read the link, show the video, and
 * when the button is pressed run the chain keywords check, transcript,
 * generation, formatting, each step guarded by the success of the one before.
 * Widgets are inputs of the run; what the page ends by showing is its outcome.
 */
module Page {
  import opened Options
  import opened Strings
  import opened Services
  import opened VideoId
  import opened Transcript
  import opened NoteCards

  /** The language the page asks for (English). */
  const TargetLanguage: string := "en"

  /** The embed address shown for an extracted identifier. */
  const WatchPrefix: string := WatchPage + "v="

  /** Where one run of the page stops. */
  datatype Outcome =
    | NoLink            // the link box is empty: nothing below it is shown
    | InvalidUrl        // "Invalid YouTube URL."
    | Waiting           // video and keyword box shown, button not pressed
    | MissingKeywords   // "Please enter keywords."
    | NoTranscript      // the transcript step failed or gave empty text
    | GenerationFailed  // "Failed to generate note cards."
    | Shown(cards: seq<string>)

  /** What one run shows: the embedded video, the outcome, and the service calls made. */
  datatype View = View(video: Option<string>, outcome: Outcome, calls: seq<Call>)

  /** Python truthiness of an optional string: present and not empty. */
  predicate Truthy(s: Option<string>)
  {
    s.Some? && s.value != ""
  }

  /** The identifier the page works with: none for an empty link box. */
  function LinkedVideo(link: string): Option<string>
  {
    if link == "" then None else ExtractVideoId(link)
  }

  /**
   * One run of the page with inputs `link`, `keywords` and whether the button
   * was pressed. Empty keywords stop the run before any service is called; a
   * failed or empty transcript stops it before the model is called; a failed or
   * empty response stops it before formatting; otherwise the formatted cards of
   * the response are shown. The service log is the transcript step's calls
   * followed by the one model call.
   */
  method RunPage(env: Env, pick: nat -> PaletteIndex, link: string, keywords: string, pressed: bool)
    returns (view: View)
    ensures LinkedVideo(link).None? ==> view.video == None && view.calls == []
    ensures link == "" ==> view.outcome == NoLink
    ensures link != "" && ExtractVideoId(link).None? ==> view.outcome == InvalidUrl
    ensures LinkedVideo(link).Some? ==> view.video == Some(WatchPrefix + LinkedVideo(link).value)
    ensures LinkedVideo(link).Some? && !pressed ==> view.outcome == Waiting && view.calls == []
    ensures LinkedVideo(link).Some? && pressed && keywords == "" ==> view.outcome == MissingKeywords && view.calls == []
    ensures keywords == "" ==> view.calls == [] && !CallsTranscript(view.calls) && !CallsGenerator(view.calls)
    ensures CallsTranscript(view.calls) <==> LinkedVideo(link).Some? && pressed && keywords != ""
    ensures CallsTranscript(view.calls) ==>
      var fetched := ExtractTranscriptDetails(env, LinkedVideo(link).value, TargetLanguage);
      (CallsGenerator(view.calls) <==> Truthy(fetched.transcript)) &&
      (view.outcome == NoTranscript <==> !Truthy(fetched.transcript)) &&
      (!Truthy(fetched.transcript) ==> view.calls == fetched.calls)
    ensures CallsGenerator(view.calls) ==>
      var fetched := ExtractTranscriptDetails(env, LinkedVideo(link).value, TargetLanguage);
      var transcript := fetched.transcript.value;
      var response := env.generate(transcript, keywords, TargetLanguage);
      view.calls == fetched.calls + [GenerateContent(transcript, keywords, TargetLanguage)] &&
      (Truthy(response) ==> view.outcome == Shown(RenderAll(NoteCardsOf(response.value, pick)))) &&
      (!Truthy(response) ==> view.outcome == GenerationFailed)
    ensures view.outcome.Shown? ==> CallsGenerator(view.calls)
  {
    if link == "" {
      return View(None, NoLink, []);
    }
    var videoId := ExtractVideoId(link);
    if videoId.None? {
      return View(None, InvalidUrl, []);
    }
    var id := videoId.value;
    var video := Some(WatchPrefix + id);
    if !pressed {
      return View(video, Waiting, []);
    }
    if keywords == "" {
      return View(video, MissingKeywords, []);
    }
    var fetched := ExtractTranscriptDetails(env, id, TargetLanguage);
    assert CallsTranscript(fetched.calls) by {
      assert fetched.calls[0].ListTranscripts?;
    }
    if !Truthy(fetched.transcript) {
      return View(video, NoTranscript, fetched.calls);
    }
    var transcript := fetched.transcript.value;
    var calls := fetched.calls + [GenerateContent(transcript, keywords, TargetLanguage)];
    assert calls[|calls| - 1].GenerateContent? && calls[0].ListTranscripts?;
    var response := env.generate(transcript, keywords, TargetLanguage);
    if !Truthy(response) {
      return View(video, GenerationFailed, calls);
    }
    var cards := FormatNoteCards(response.value, pick);
    return View(video, Shown(cards), calls);
  }

  // ---------------------------------------------------------------- a worked run

  const SampleId: string := "abc12345678"

  /** `https://www.youtube.com/watch?v=abc12345678`. */
  const SampleLink: string := WatchPage + "v=" + SampleId

  /** The two segments joined: `Hello world`. */
  const SampleTranscript: string := "Hello" + " " + "world"

  const SampleKeywords: string := "greeting"

  /** The sample link names the sample video. */
  lemma SampleLinkId()
    ensures LinkedVideo(SampleLink) == Some(SampleId)
  {
    assert IsIdChar('a') && IsIdChar('b') && IsIdChar('c') && IsIdChar('1') && IsIdChar('8');
    WatchLink(SampleId, "");
    assert SampleLink + "" == SampleLink;
  }

  /** One English track with segments "Hello" and "world" gives "Hello world", untranslated. */
  lemma SampleFetch(env: Env)
    requires env.listTranscripts(SampleId) == Some(["en"])
    requires env.getTranscript(SampleId, "en") == Some([Segment("Hello"), Segment("world")])
    ensures ExtractTranscriptDetails(env, SampleId, TargetLanguage) ==
      Fetched(Some(SampleTranscript), [ListTranscripts(SampleId), GetTranscript(SampleId, "en")])
  {
    var segments := [Segment("Hello"), Segment("world")];
    assert Texts(segments) == ["Hello", "world"];
    assert JoinSegments(segments) == SampleTranscript;
    assert SelectLanguage(["en"]) == Some("en");
    assert ChosenSegments(env, SampleId) == Some(segments);
  }

  /** A reply of a preamble and two markers, each followed by a card text. */
  function TwoCardReply(preamble: string, first: string, second: string): string
  {
    preamble + Marker + first + Marker + second
  }

  /**
   * Such a reply makes two cards, numbered 1 and 2, when neither card text is
   * blank and no part of the reply holds the marker itself.
   */
  lemma TwoCards(preamble: string, first: string, second: string, pick: nat -> PaletteIndex)
    requires !Contains(preamble, Marker) && !Contains(first, Marker) && !Contains(second, Marker)
    requires Strip(first) != "" && Strip(second) != ""
    ensures |NoteCardsOf(TwoCardReply(preamble, first, second), pick)| == 2
    ensures NoteCardsOf(TwoCardReply(preamble, first, second), pick)[0].number == 1
    ensures NoteCardsOf(TwoCardReply(preamble, first, second), pick)[1].number == 2
  {
    var bodies := [first, second];
    var parts := [preamble] + bodies;
    assert parts[1..] == bodies && bodies[1..] == [second];
    assert Join(bodies, Marker) == first + Marker + second;
    assert Join(parts, Marker) == preamble + Marker + Join(bodies, Marker);
    assert TwoCardReply(preamble, first, second) == preamble + Marker + (first + Marker + second);
    CardsOfMarkedBodies(preamble, bodies, pick);
  }

  /**
   * A run on a watch link whose video has one English track with segments
   * "Hello" and "world": the identifier after `v=` is used, nothing is
   * translated, the model is asked with "Hello world" and the keywords, and a
   * reply holding two markers, each followed by a card text, shows two cards.
   */
  method SampleRun(env: Env, pick: nat -> PaletteIndex, preamble: string, first: string, second: string)
    returns (view: View)
    requires env.listTranscripts(SampleId) == Some(["en"])
    requires env.getTranscript(SampleId, "en") == Some([Segment("Hello"), Segment("world")])
    requires env.generate(SampleTranscript, SampleKeywords, TargetLanguage) == Some(TwoCardReply(preamble, first, second))
    requires !Contains(preamble, Marker) && !Contains(first, Marker) && !Contains(second, Marker)
    requires Strip(first) != "" && Strip(second) != ""
    ensures view.video == Some(WatchPrefix + SampleId)
    ensures !CallsTranslator(view.calls)
    ensures view.calls == [ListTranscripts(SampleId), GetTranscript(SampleId, "en"),
                           GenerateContent(SampleTranscript, SampleKeywords, TargetLanguage)]
    ensures view.outcome.Shown? && |view.outcome.cards| == 2
  {
    SampleLinkId();
    SampleFetch(env);
    TwoCards(preamble, first, second, pick);
    var reply := TwoCardReply(preamble, first, second);
    assert |reply| >= |Marker| > 0;
    assert Truthy(Some(SampleTranscript)) && Truthy(Some(reply));
    view := RunPage(env, pick, SampleLink, SampleKeywords, true);
    assert CallsTranscript(view.calls) && CallsGenerator(view.calls);
    forall k | 0 <= k < |view.calls| ensures !view.calls[k].Translate? {
    }
  }
}
