/**
 * Formatting of the model's response into note cards (app.py,
 * `format_note_cards`): split the response at the marker `"Note Card "`, drop
 * the preamble before the first marker, and turn every later fragment that is
 * not blank once stripped into an HTML block with a palette colour, a heading
 * numbered by the fragment's position, and a body whose `". "` become `".<br>"`.
 */
module NoteCards {
  import opened Strings

  /** The literal the response is split at. */
  const Marker: string := "Note Card "

  /** The ten background colours a card may get. */
  const Palette: seq<string> :=
    ["#FFCDD2", "#F8BBD0", "#E1BEE7", "#D1C4E9", "#C5CAE9",
     "#BBDEFB", "#B3E5FC", "#B2EBF2", "#B2DFDB", "#C8E6C9"]

  /**
   * A position in the palette. `random.choice(colors)` is modelled as a chooser
   * `pick: nat -> PaletteIndex` asked once per kept card, in order: its
   * argument is the number of cards kept before.
   */
  type PaletteIndex = i: nat | i < 10

  /** What one formatted card shows. */
  datatype Card = Card(number: nat, colour: string, body: string)

  // ---------------------------------------------------------------- specification

  /** The fragments after the preamble: `note_cards_content.split("Note Card ")[1:]`. */
  function Fragments(content: string): (frags: seq<string>)
    ensures |frags| == Occurrences(content, Marker)
  {
    SplitCount(content, Marker);
    Split(content, Marker)[1..]
  }

  /**
   * The 0-based indices of the fragments that are not blank once stripped,
   * in increasing order, and all of them.
   */
  function KeptIndices(frags: seq<string>): (ks: seq<nat>)
    ensures forall j :: 0 <= j < |ks| ==> ks[j] < |frags| && Strip(frags[ks[j]]) != ""
    ensures forall j, j' :: 0 <= j < j' < |ks| ==> ks[j] < ks[j']
    decreases |frags|
  {
    if |frags| == 0 then []
    else
      var init := frags[..|frags| - 1];
      assert forall i :: 0 <= i < |init| ==> init[i] == frags[i];
      KeptIndices(init) + (if Strip(frags[|frags| - 1]) != "" then [|frags| - 1] else [])
  }

  /** Every fragment that is not blank once stripped is kept. */
  lemma {:induction false} KeptIndicesComplete(frags: seq<string>, i: nat)
    requires i < |frags| && Strip(frags[i]) != ""
    ensures i in KeptIndices(frags)
    decreases |frags|
  {
    var init := frags[..|frags| - 1];
    if i < |init| {
      assert init[i] == frags[i];
      KeptIndicesComplete(init, i);
    }
  }

  /**
   * The cards made of a list of fragments: one per kept fragment, in order,
   * numbered by its 1-based position, coloured by the `j`-th choice, with the
   * stripped fragment as body after the sentence breaks.
   */
  function CardsOf(frags: seq<string>, pick: nat -> PaletteIndex): (cards: seq<Card>)
  {
    var ks := KeptIndices(frags);
    seq(|ks|, j requires 0 <= j < |ks| =>
      Card(ks[j] + 1, Palette[pick(j)], BreakSentences(Strip(frags[ks[j]]))))
  }

  /** The cards of a model response. */
  function NoteCardsOf(content: string, pick: nat -> PaletteIndex): seq<Card>
  {
    CardsOf(Fragments(content), pick)
  }

  // ---------------------------------------------------------------- rendering

  function Indent(n: nat): (r: string)
    ensures |r| == n
  {
    seq(n, _ => ' ')
  }

  /** The text of the f-string before the colour. */
  const Lead: string := "\n" + Indent(16) + "<div class=\"note-card\" style=\"background-color: "
  /** Between the colour and the number. */
  const Heading: string := ";\">\n" + Indent(20) + "<h3>Note Card "
  /** Between the number and the body. */
  const Opening: string := "</h3>\n" + Indent(20) + "<ul>\n" + Indent(24)
  /** After the body. */
  const Closing: string := "\n" + Indent(20) + "</ul>\n" + Indent(16) + "</div>\n" + Indent(12)

  /** The HTML block the f-string of `format_note_cards` builds for one card. */
  function Render(c: Card): string
  {
    Lead + (c.colour + (Heading + (NatToString(c.number) + (Opening + (c.body + Closing)))))
  }

  function RenderAll(cards: seq<Card>): (blocks: seq<string>)
    ensures |blocks| == |cards|
  {
    seq(|cards|, j requires 0 <= j < |cards| => Render(cards[j]))
  }

  // ---------------------------------------------------------------- the loop

  /**
   * `format_note_cards(note_cards_content)`, with the random colour choice
   * supplied as `pick`: the HTML blocks of exactly the cards `NoteCardsOf`
   * describes, in order.
   */
  method FormatNoteCards(noteCardsContent: string, pick: nat -> PaletteIndex) returns (formatted: seq<string>)
    ensures formatted == RenderAll(NoteCardsOf(noteCardsContent, pick))
  {
    var noteCards := Split(noteCardsContent, Marker);
    ghost var frags := noteCards[1..];
    formatted := [];
    var i := 1;
    while i < |noteCards|
      invariant 1 <= i <= |noteCards|
      invariant formatted == RenderAll(CardsOf(frags[..i - 1], pick))
    {
      var noteCard := Strip(noteCards[i]);
      CardsOfSnoc(frags[..i - 1], noteCards[i], pick);
      if noteCard != "" {
        var colour := Palette[pick(|formatted|)];
        RenderAllSnoc(CardsOf(frags[..i - 1], pick), Card(i, colour, BreakSentences(noteCard)));
        formatted := formatted + [Render(Card(i, colour, BreakSentences(noteCard)))];
      }
      assert frags[..i] == frags[..i - 1] + [noteCards[i]];
      i := i + 1;
    }
    assert frags[..i - 1] == frags;
  }

  lemma RenderAllSnoc(cards: seq<Card>, c: Card)
    ensures RenderAll(cards + [c]) == RenderAll(cards) + [Render(c)]
  {
  }

  /** One more fragment adds one card when it is not blank, and none otherwise. */
  lemma CardsOfSnoc(frags: seq<string>, x: string, pick: nat -> PaletteIndex)
    ensures CardsOf(frags + [x], pick) ==
      CardsOf(frags, pick) +
      (if Strip(x) != "" then [Card(|frags| + 1, Palette[pick(|CardsOf(frags, pick)|)], BreakSentences(Strip(x)))] else [])
  {
    var f := frags + [x];
    assert f[..|f| - 1] == frags;
    var ks := KeptIndices(frags);
    var ks' := KeptIndices(f);
    assert ks' == ks + (if Strip(x) != "" then [|frags|] else []);
    var a := CardsOf(f, pick);
    var b := CardsOf(frags, pick) +
      (if Strip(x) != "" then [Card(|frags| + 1, Palette[pick(|ks|)], BreakSentences(Strip(x)))] else []);
    assert |a| == |ks'| == |b|;
    forall j | 0 <= j < |a| ensures a[j] == b[j] {
      if j < |ks| {
        assert ks'[j] == ks[j] && f[ks[j]] == frags[ks[j]];
      } else {
        assert ks'[j] == |frags| && f[|frags|] == x;
      }
    }
  }

  // ---------------------------------------------------------------- properties

  /** A response without the marker gives no cards. */
  lemma NoMarkerNoCards(content: string, pick: nat -> PaletteIndex)
    requires !Contains(content, Marker)
    ensures NoteCardsOf(content, pick) == []
  {
    SplitAbsent(content, Marker);
  }

  /** The number of fragments after the preamble that are not blank once stripped. */
  function FilledCount(frags: seq<string>): nat
  {
    if |frags| == 0 then 0
    else (if Strip(frags[0]) != "" then 1 else 0) + FilledCount(frags[1..])
  }

  lemma {:induction false} FilledCountSnoc(frags: seq<string>, x: string)
    ensures FilledCount(frags + [x]) == FilledCount(frags) + (if Strip(x) != "" then 1 else 0)
    decreases |frags|
  {
    if |frags| > 0 {
      assert (frags + [x])[1..] == frags[1..] + [x];
      FilledCountSnoc(frags[1..], x);
    }
  }

  lemma {:induction false} KeptIndicesCount(frags: seq<string>)
    ensures |KeptIndices(frags)| == FilledCount(frags)
    decreases |frags|
  {
    if |frags| > 0 {
      var init := frags[..|frags| - 1];
      KeptIndicesCount(init);
      FilledCountSnoc(init, frags[|frags| - 1]);
      assert init + [frags[|frags| - 1]] == frags;
    }
  }

  /**
   * There are as many cards as fragments after the preamble that are not blank
   * once stripped, hence no more than there are markers.
   */
  lemma CardCount(content: string, pick: nat -> PaletteIndex)
    ensures |NoteCardsOf(content, pick)| == FilledCount(Fragments(content))
    ensures |NoteCardsOf(content, pick)| <= Occurrences(content, Marker)
  {
    KeptIndicesCount(Fragments(content));
    var ks := KeptIndices(Fragments(content));
    KeptWithinLength(ks, |Fragments(content)|);
  }

  /** A strictly increasing list of indices below `n` has at most `n` entries. */
  lemma {:induction false} KeptWithinLength(ks: seq<nat>, n: nat)
    requires forall j :: 0 <= j < |ks| ==> ks[j] < n
    requires forall j, j' :: 0 <= j < j' < |ks| ==> ks[j] < ks[j']
    ensures |ks| <= n
    decreases n
  {
    if |ks| > 0 {
      var init := ks[..|ks| - 1];
      assert forall j :: 0 <= j < |init| ==> init[j] < ks[|ks| - 1] < n;
      KeptWithinLength(init, ks[|ks| - 1]);
    }
  }

  /**
   * Card numbers are the 1-based positions of their fragments after the
   * preamble: at least 1, at most the number of markers, strictly increasing,
   * each naming a fragment that is not blank.
   */
  lemma CardNumbers(content: string, pick: nat -> PaletteIndex)
    ensures var cards := NoteCardsOf(content, pick);
      forall j :: 0 <= j < |cards| ==>
        1 <= cards[j].number <= Occurrences(content, Marker) &&
        Strip(Fragments(content)[cards[j].number - 1]) != ""
    ensures var cards := NoteCardsOf(content, pick);
      forall j, j' :: 0 <= j < j' < |cards| ==> cards[j].number < cards[j'].number
  {
    var ks := KeptIndices(Fragments(content));
    var cards := NoteCardsOf(content, pick);
    assert forall j :: 0 <= j < |cards| ==> cards[j].number == ks[j] + 1;
  }

  /**
   * Every fragment that is not blank once stripped has the card with its
   * 1-based position as number; a blank fragment leaves its number unused.
   */
  lemma FilledFragmentsNumbered(content: string, pick: nat -> PaletteIndex)
    ensures var cards := NoteCardsOf(content, pick);
      forall i :: 0 <= i < Occurrences(content, Marker) && Strip(Fragments(content)[i]) != "" ==>
        exists j :: 0 <= j < |cards| && cards[j].number == i + 1
  {
    var frags := Fragments(content);
    var ks := KeptIndices(frags);
    var cards := NoteCardsOf(content, pick);
    forall i | 0 <= i < |frags| && Strip(frags[i]) != ""
      ensures exists j :: 0 <= j < |cards| && cards[j].number == i + 1
    {
      KeptIndicesComplete(frags, i);
      var j :| 0 <= j < |ks| && ks[j] == i;
      assert cards[j].number == i + 1;
    }
  }

  /**
   * Each card's colour is one of the palette's, the one chosen for it, and its
   * body is its stripped fragment with every `". "` replaced by `".<br>"`, so
   * that no `". "` is left in it.
   */
  lemma CardContents(content: string, pick: nat -> PaletteIndex)
    ensures var cards := NoteCardsOf(content, pick);
      forall j :: 0 <= j < |cards| ==>
        cards[j].colour == Palette[pick(j)] && cards[j].colour in Palette
    ensures var cards := NoteCardsOf(content, pick);
      forall j :: 0 <= j < |cards| ==>
        1 <= cards[j].number <= |Fragments(content)| &&
        cards[j].body == BreakSentences(Strip(Fragments(content)[cards[j].number - 1])) &&
        !Contains(cards[j].body, ". ")
  {
  }

  /**
   * When no fragment after the preamble is blank, the cards are numbered 1, 2,
   * ... up to the number of markers, one per marker.
   */
  lemma AllFilledOnePerMarker(content: string, pick: nat -> PaletteIndex)
    requires forall i :: 0 <= i < |Fragments(content)| ==> Strip(Fragments(content)[i]) != ""
    ensures |NoteCardsOf(content, pick)| == Occurrences(content, Marker)
    ensures forall j :: 0 <= j < |NoteCardsOf(content, pick)| ==> NoteCardsOf(content, pick)[j].number == j + 1
  {
    var frags := Fragments(content);
    KeptAll(frags);
  }

  /** Two markers can never overlap: `N` stands only at the start of the marker. */
  lemma MarkerBorderFree()
    ensures BorderFree(Marker)
  {
    forall k | 0 < k < |Marker| ensures Marker[..k] != Marker[|Marker| - k..] {
      assert Marker[..k][0] == 'N';
      assert Marker[|Marker| - k..][0] == Marker[|Marker| - k] != 'N';
    }
  }

  /**
   * A response written as a preamble followed by bodies, each after its own
   * marker, gives back one card per body, in order, numbered 1, 2, ..., as long
   * as no body is blank and no part holds the marker itself.
   */
  lemma CardsOfMarkedBodies(preamble: string, bodies: seq<string>, pick: nat -> PaletteIndex)
    requires !Contains(preamble, Marker)
    requires forall k :: 0 <= k < |bodies| ==> !Contains(bodies[k], Marker) && Strip(bodies[k]) != ""
    ensures var cards := NoteCardsOf(Join([preamble] + bodies, Marker), pick);
      |cards| == |bodies| &&
      forall j :: 0 <= j < |cards| ==> cards[j] == Card(j + 1, Palette[pick(j)], BreakSentences(Strip(bodies[j])))
  {
    var parts := [preamble] + bodies;
    forall k | 0 <= k < |parts| ensures !Contains(parts[k], Marker) {
      if k > 0 {
        assert parts[k] == bodies[k - 1];
      }
    }
    MarkerBorderFree();
    SplitJoin(parts, Marker);
    var content := Join(parts, Marker);
    assert Fragments(content) == bodies by {
      assert Split(content, Marker)[1..] == parts[1..];
    }
    KeptAll(bodies);
    var ks := KeptIndices(bodies);
    var cards := NoteCardsOf(content, pick);
    assert cards == CardsOf(bodies, pick);
    forall j | 0 <= j < |cards|
      ensures cards[j] == Card(j + 1, Palette[pick(j)], BreakSentences(Strip(bodies[j])))
    {
      assert ks[j] == j;
    }
  }

  lemma {:induction false} KeptAll(frags: seq<string>)
    requires forall i :: 0 <= i < |frags| ==> Strip(frags[i]) != ""
    ensures |KeptIndices(frags)| == |frags|
    ensures forall j :: 0 <= j < |frags| ==> KeptIndices(frags)[j] == j
    decreases |frags|
  {
    if |frags| > 0 {
      KeptAll(frags[..|frags| - 1]);
    }
  }

  // ---------------------------------------------------------------- rendering loses nothing

  /** Two concatenations with first parts of equal length agree part by part. */
  lemma ConcatCancel(x1: string, y1: string, x2: string, y2: string)
    requires |x1| == |x2| && x1 + y1 == x2 + y2
    ensures x1 == x2 && y1 == y2
  {
    assert x1 == (x1 + y1)[..|x1|] && x2 == (x2 + y2)[..|x2|];
    assert y1 == (x1 + y1)[|x1|..] && y2 == (x2 + y2)[|x2|..];
  }

  lemma CharOfConcat(d: string, r: string, m: nat)
    requires m < |d + r|
    ensures (d + r)[m] == if m < |d| then d[m] else r[m - |d|]
  {
  }

  /** Digits followed by a non-digit split uniquely: the digits end where the rest starts. */
  lemma DigitsBeforeTag(d1: string, r1: string, d2: string, r2: string)
    requires forall k :: 0 <= k < |d1| ==> IsDigit(d1[k])
    requires forall k :: 0 <= k < |d2| ==> IsDigit(d2[k])
    requires |r1| > 0 && |r2| > 0 && !IsDigit(r1[0]) && !IsDigit(r2[0])
    requires d1 + r1 == d2 + r2
    ensures d1 == d2 && r1 == r2
  {
    var m := if |d1| < |d2| then |d1| else |d2|;
    CharOfConcat(d1, r1, m);
    CharOfConcat(d2, r2, m);
    assert |d1| == |d2|;
    ConcatCancel(d1, r1, d2, r2);
  }

  /**
   * Two cards with palette colours that render to the same HTML are the same
   * card: the block determines the colour, the number and the body.
   */
  lemma RenderInjective(c1: Card, c2: Card)
    requires c1.colour in Palette && c2.colour in Palette
    requires Render(c1) == Render(c2)
    ensures c1 == c2
  {
    var n1, n2 := NatToString(c1.number), NatToString(c2.number);
    var tail1, tail2 := Opening + (c1.body + Closing), Opening + (c2.body + Closing);
    ConcatCancel(Lead, c1.colour + (Heading + (n1 + tail1)), Lead, c2.colour + (Heading + (n2 + tail2)));
    assert |c1.colour| == 7 && |c2.colour| == 7;
    ConcatCancel(c1.colour, Heading + (n1 + tail1), c2.colour, Heading + (n2 + tail2));
    ConcatCancel(Heading, n1 + tail1, Heading, n2 + tail2);
    assert tail1[0] == '<' && tail2[0] == '<';
    DigitsBeforeTag(n1, tail1, n2, tail2);
    NatToStringRoundTrip(c1.number);
    NatToStringRoundTrip(c2.number);
    ConcatCancel(Opening, c1.body + Closing, Opening, c2.body + Closing);
    assert |c1.body| == |c2.body|;
    ConcatCancel(c1.body, Closing, c2.body, Closing);
  }
}
