# Note-card generator for video transcripts: a verified model

The application is a single Streamlit page (`app.py`). A user pastes a video
link and a comma-separated list of keywords and presses a button. The page
then:

1. extracts the video identifier from the link;
2. fetches a caption track, preferring English, joins its segment texts, and
   translates them when the track is not in English;
3. asks a generative model for note cards, passing the transcript and the keywords;
4. cuts the model's reply at each `Note Card ` marker, drops the piece before
   the first marker, and renders every later piece that is not blank once
   stripped as a coloured HTML card.

This project models the logic of that pipeline in Dafny and proves what it
does. The outside services are opaque functions supplied by the caller.

- `Options.dfy`: the `Option` type. `None` stands for a caught exception or a
  missing value.
- `Strings.dfy`: the Python string operations the code relies on, on
  `seq<char>`:
  - `split` and `join`;
  - `strip`, over the exact set of characters for which `str.isspace()` holds;
  - `replace('. ', '.<br>')`;
  - `str(n)` for a natural number.

  Each comes with the lemmas that give its meaning: round trips, counts, and
  what is left behind.
- `VideoId.dfy`: `extract_video_id`. The regular-expression search
  `(?:v=|\/)([0-9A-Za-z_-]{11}).*` is written as the left-to-right scan that
  `re.search` performs, and returns the captured group.
- `Services.dfy`: the transcript listing, transcript fetch, translator and
  generative model, as function fields of an `Env`. Calls made to them are
  recorded in a log of `Call` values, so that a contract can say which services
  were or were not called, with which arguments and in what order.
- `Transcript.dfy`: the track choice, the join and the translation gating of
  `extract_transcript_details`.
- `NoteCards.dfy`: `format_note_cards`.
  - The imperative method `FormatNoteCards` keeps the source's loop over the
    fragments.
  - It is proved against the specification function `NoteCardsOf`, which gives
    the cards a reply yields. `Render` turns a card into the exact f-string
    block.
  - The lemmas state what the cards are: their count, their numbering, their
    colours and bodies, and that rendering loses nothing.
- `Page.dfy`: the page script's guard chain after the button press, as a method
  `RunPage` over the widget inputs. It also has a worked run on a watch link
  with English segments `Hello` and `world`, and a reply made of a preamble
  and two markers, each followed by a card text that is not blank, with the
  marker `Note Card ` nowhere else in the reply.

Two points where the model follows the code:

- **Card count.** One might expect one card per marker. The code skips
  fragments that are blank once stripped, so it gives one card per non-blank
  fragment. The model
  follows the code: `NoteCards.CardCount` states the count, and
  `NoteCards.AllFilledOnePerMarker` states when the two agree.
- **Language choice.** The language taken when it is listed is the fixed `'en'`
  (app.py:62), not the `target_language` parameter. The model keeps it that
  way.

## Model

| member | source | states |
|---|---|---|
| VideoId.ExtractVideoId | app.py:39-46 | A returned identifier has 11 characters from `[0-9A-Za-z_-]`. It stands in the link directly after `v=` or `/`. It is the group captured at the leftmost index where the pattern matches: no earlier index matches. `None` is returned exactly when the pattern matches at no index. |
| VideoId.SearchFrom | app.py:40-41 | The search from an index returns the first index at or after it where `v=` or `/` is followed by 11 identifier characters. It returns `None` exactly when no such index exists. |
| VideoId.TryAt | app.py:40 | One attempt of the pattern at an index succeeds exactly when `v=` or `/` starts there and 11 identifier characters follow. |
| VideoId.AllIdChars | app.py:40 | The recursive check of a slice holds exactly when every character is in the class `[0-9A-Za-z_-]`. |
| VideoId.ExtractAfterMarker | app.py:40-43 | Suppose a prefix where no match can start (no `v`, and every `/` followed within 11 characters by a non-identifier character). Then `v=` or `/` plus 11 identifier characters after it yields exactly those 11 characters, whatever follows. |
| VideoId.WatchLink | app.py:40-43 | From `https://www.youtube.com/watch?v=` followed by an 11-character identifier, the identifier is extracted, whatever query follows it. |
| VideoId.PathSegmentFirst | app.py:40-43 | Leftmost-first matching: after `https://www.youtube.com/`, the 11-character path segment `attribution` is returned, even when a `v=` with another identifier comes later. |
| Transcript.SelectLanguage | app.py:59-62 | The choice is `en` exactly when `en` is listed; any other choice is the first listed code. It is `None` exactly when the list is empty (the caught `IndexError`). A choice is always one of the listed codes. |
| Transcript.JoinSegments | app.py:65 | The definition of the transcript text: the segment texts in segment order, joined with single spaces (`Strings.Join` with `" "`). |
| Transcript.ExtractTranscriptDetails | app.py:56-74 | The listing is always called first; an empty listing returns `None` after that one call; the translator is called exactly when the chosen track was fetched and its language differs from the target; the result is then the translation of the space-joined text; a track in the target language gives the joined text unchanged; a failed listing or fetch gives `None`; the log records listing, fetch and translation, in that order; the generative model is never called. |
| Transcript.JoinSegmentsKeepsOrder | app.py:65 | If the track has at least one segment and no segment text holds a space, splitting the joined transcript at spaces gives back exactly the segment texts, in order. |
| Transcript.JoinSegmentsLength | app.py:65 | The joined transcript is as long as all segment texts together plus one space between each pair of neighbours. |
| Strings.Split | app.py:127 | Splitting always yields at least one piece. |
| Strings.SplitCount | app.py:127 | There is one more piece than there are non-overlapping left-to-right occurrences of the separator. |
| Strings.SplitAbsent | app.py:127 | A string without the separator splits into itself alone. |
| Strings.JoinSplit | app.py:127 | Joining the pieces back with the separator restores the original string. |
| Strings.SplitPiecesFree | app.py:127 | No piece contains the separator. |
| Strings.SplitJoin | app.py:65 | Splitting undoes joining of a non-empty list of parts, as long as no part contains the separator and the separator cannot overlap itself (no proper prefix of it is also a suffix). |
| Strings.JoinLength | app.py:65 | A join of a non-empty list of parts is as long as its parts plus one separator between each pair of neighbours. |
| Strings.Join | app.py:65 | The definition of `sep.join(parts)`: the parts in order, with `sep` between each pair of neighbours; the empty list joins to the empty string. |
| Strings.StripFacts | app.py:131 | The stripped text is the infix between a whitespace-only prefix and a whitespace-only suffix. It neither starts nor ends with whitespace. It is empty exactly when the whole text is whitespace. |
| Strings.StripIdempotent | app.py:131 | Stripping twice is the same as stripping once. |
| Strings.Strip | app.py:131 | The definition of `str.strip()`: leading, then trailing, characters of CPython's `isspace` set (U+0009-000D, U+001C-0020, U+0085, U+00A0, U+1680, U+2000-200A, U+2028, U+2029, U+202F, U+205F, U+3000) are removed; its meaning is proved in `Strings.StripFacts`. |
| Strings.BreakSentences | app.py:138 | The replacement leaves no `". "` in the body. It keeps the first character. It is empty exactly when its input is. |
| Strings.BreakSentencesRoundTrip | app.py:138 | If the text had no `.<br>` of its own, turning every `.<br>` back into `. ` recovers the text exactly. |
| Strings.NatToString | app.py:136 | The decimal rendering of a card number is a non-empty string of digits without a leading zero (only `0` itself starts with `0`). |
| Strings.NatToStringRoundTrip | app.py:136 | Reading the decimal rendering back gives the number. |
| NoteCards.Fragments | app.py:127-130 | There are as many fragments after the preamble as there are markers in the reply. |
| NoteCards.KeptIndices | app.py:130-132 | The kept fragment positions are strictly increasing and in range. Each names a fragment that is not blank once stripped. |
| NoteCards.KeptIndicesComplete | app.py:130-132 | Every fragment that is not blank once stripped is kept. |
| NoteCards.CardsOf | app.py:130-141 | The reference definition of the loop's output as cards: one card per kept fragment, in fragment order, numbered by the fragment's 1-based position, coloured by the j-th draw, with the stripped fragment after the sentence breaks as body. |
| NoteCards.NoteCardsOf | app.py:127-141 | The cards of a reply: `CardsOf` applied to the fragments after the preamble of the split at `Note Card `. |
| NoteCards.FormatNoteCards | app.py:126-142 | The loop returns exactly the rendered blocks of the cards `NoteCardsOf` gives for the reply, in order. The colour of the j-th kept card is the j-th draw. |
| NoteCards.CardsOfSnoc | app.py:130-141 | One more fragment appends one card when it is not blank once stripped, and none otherwise. The card's number is the fragment's 1-based position, its colour is the next draw, and its body is the stripped fragment with the sentence breaks. |
| NoteCards.RenderAllSnoc | app.py:134-141 | Rendering one more card appends exactly its block. |
| NoteCards.Render | app.py:134-141 | The definition of one card's HTML block, the f-string with its exact line breaks and indents (16, 20, 20, 24, 20, 16 and 12 spaces): the colour in the `background-color` style, `Note Card ` and the number in the `h3`, the body inside the `ul`. |
| NoteCards.NoMarkerNoCards | app.py:127-132 | A reply without `Note Card ` gives no cards. |
| NoteCards.CardCount | app.py:127-132 | The number of cards equals the number of fragments after the preamble that are not blank once stripped. It is therefore at most the number of markers. |
| NoteCards.KeptIndicesCount | app.py:130-132 | One position is kept for each fragment that is not blank. |
| NoteCards.CardNumbers | app.py:130-136 | Card numbers are 1-based fragment positions: at least 1 and at most the marker count. They are strictly increasing, and each names a non-blank fragment. |
| NoteCards.FilledFragmentsNumbered | app.py:130-136 | Every non-blank fragment has the card whose number is its 1-based position, so blank fragments leave gaps in the numbering. |
| NoteCards.CardContents | app.py:129-138 | A card's colour is one of the ten palette entries, namely the one drawn for it. Its body is its stripped fragment with every `". "` replaced by `".<br>"`, so no `". "` remains. |
| NoteCards.AllFilledOnePerMarker | app.py:127-136 | When no fragment is blank, there is one card per marker, numbered 1, 2, … |
| NoteCards.MarkerBorderFree | app.py:127 | The marker `Note Card ` cannot overlap itself: no proper prefix of it is also a suffix, so its occurrences in a reply are disjoint. |
| NoteCards.CardsOfMarkedBodies | app.py:127-136 | A reply written as a preamble plus one marker before each of several non-blank bodies (with the marker nowhere else) gives one card per body, in order, numbered from 1. |
| NoteCards.RenderInjective | app.py:134-141 | Two cards with palette colours that render to the same block are the same card: the block determines the colour, the number and the body. |
| Page.RunPage | app.py:323-347 | An empty link or a link without an identifier calls no service and shows no video; otherwise the video is embedded; without a button press nothing is called; empty keywords call no service at all, neither the transcript services, the translator nor the model (the call log is empty); the transcript services are called exactly when there is an identifier, the button is pressed and keywords are given; the model is called exactly when the transcript is present and non-empty; otherwise the run stops with `NoTranscript` and only the transcript calls; the model is called once, after the transcript calls, with the transcript, the keywords and `en`; a missing or empty reply ends in `GenerationFailed`. Formatting runs only on a non-empty reply, and the cards shown are exactly the rendered `NoteCardsOf` cards of that reply. |
| Page.SampleLinkId | app.py:323-324 | The link `https://www.youtube.com/watch?v=abc12345678` gives the identifier `abc12345678`. |
| Page.SampleFetch | app.py:56-71 | For a video with one English track with segments `Hello` and `world`, the transcript is `Hello world`. It is not translated, and only the listing and the fetch are called. |
| Page.TwoCards | app.py:126-142 | A reply made of a preamble and two markers, each followed by a non-blank card text, gives exactly two cards, numbered 1 and 2 (when the marker appears nowhere else in the reply). |
| Page.SampleRun | app.py:318-347 | The whole run on that link and video, with keywords `greeting`: the video is embedded; the translator is not called; the calls are listing, fetch, then one model call with `Hello world`, `greeting` and `en`; a reply with two markers as in `Page.TwoCards` shows two cards. |

## Left out

- The API-key loading and model configuration (app.py:12-24) are left out. They are start-up I/O that halts the page, with no logic to verify.
- Streamlit presentation is left out: CSS blocks, the title and markdown, spinners, and the `st.markdown` of each card (app.py:173-319, 335, 339, 344-345). The page's outcome is a value (`Page.Outcome`) instead.
- The `st.error` messages inside `extract_video_id`, `extract_transcript_details` and the model call (app.py:45, 73, 122) are left out. These are side effects; the failure is the `None` result.
- `add_bg_from_local` (app.py:144-171) is left out. It reads a local file, base64-encodes it and emits CSS.
- `analyze_text` (app.py:28-32) and `get_transcript_languages` (app.py:48-54) are left out. Neither is called by the page.
- The outside services (`YouTubeTranscriptApi`, the Google translator, the generative model) are opaque function fields of `Services.Env`. A raised exception, or a reply without text, is `None`.
- The prompt wording of `generate_note_cards_from_transcript` (app.py:77-120) is left out. Building the fixed prompt text and checking the reply's format belong to the opaque `generate` service, which receives the transcript, the keywords and the target language.
- Segment timing fields are not modelled. A segment is only its text, so a segment without a `text` key (a `KeyError`, caught at app.py:72) is not modelled.
- `random.choice` (app.py:133) is the parameter `pick`. It gives the palette index of the n-th draw, where n is the number of cards kept so far. The randomness itself is not modelled.
- The Streamlit re-run model and widget state are not modelled. One call of `Page.RunPage` is one run of the script with given widget values.
- Python's `str.strip` is modelled with the fixed set of characters for which `str.isspace()` holds. Unicode normalisation is not modelled.
