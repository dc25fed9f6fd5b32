/** The segmenter of the RotatingText component: it turns the active text into
    ordered display units, according to the `splitBy` setting. */
module Segmenter {
  import opened JsStrings

  /** One display unit: the strings animated one by one, and whether a space
      is rendered after the unit. */
  datatype Unit = Unit(characters: seq<string>, needsSpace: bool)

  /** What the host runtime offers for cutting a word into characters: a
      locale-aware grapheme segmenter (`Intl.Segmenter`, whose behaviour is not
      part of this model and is taken as a function), or nothing, in which case
      the word is iterated code point by code point. */
  datatype Host = CodePointFallback | GraphemeSegmenter(segment: string -> seq<string>)

  /** A host whose segments always concatenate back to the segmented word. */
  ghost predicate Lossless(host: Host)
  {
    host.GraphemeSegmenter? ==> forall w :: Join(host.segment(w), []) == w
  }

  /** `splitIntoCharacters`. */
  function SplitIntoCharacters(text: string, host: Host): (r: seq<string>)
    ensures host.CodePointFallback? ==> |r| == |text| && forall i :: 0 <= i < |r| ==> r[i] == [text[i]]
  {
    match host
    case GraphemeSegmenter(segment) => segment(text)
    case CodePointFallback => Split(text, [])
  }

  /** Units holding one whole piece each; all but the last need a space. */
  function WholePieces(pieces: seq<string>): seq<Unit>
  {
    seq(|pieces|, i requires 0 <= i < |pieces| => Unit([pieces[i]], i != |pieces| - 1))
  }

  /** `elements`: the display units of `text`. */
  function Elements(text: string, splitBy: string, host: Host): (r: seq<Unit>)
    ensures forall i :: 0 <= i < |r| ==> (r[i].needsSpace <==> i != |r| - 1)
  {
    if splitBy == "characters" then
      var words := Split(text, " ");
      seq(|words|, i requires 0 <= i < |words| => Unit(SplitIntoCharacters(words[i], host), i != |words| - 1))
    else if splitBy == "words" then WholePieces(Split(text, " "))
    else if splitBy == "lines" then WholePieces(Split(text, "\n"))
    else WholePieces(Split(text, splitBy))
  }

  /** The text a unit stands for: its characters put back together. */
  function UnitText(u: Unit): string
  {
    Join(u.characters, [])
  }

  /** The texts of all units, in order. */
  function UnitTexts(units: seq<Unit>): (r: seq<string>)
    ensures |r| == |units|
  {
    seq(|units|, i requires 0 <= i < |units| => UnitText(units[i]))
  }

  /** The separator a `splitBy` setting cuts the text at. */
  function Separator(splitBy: string): string
  {
    if splitBy == "characters" || splitBy == "words" then " "
    else if splitBy == "lines" then "\n"
    else splitBy
  }

  lemma UnitTextsOfWholePieces(pieces: seq<string>)
    ensures UnitTexts(WholePieces(pieces)) == pieces
  {
    forall i | 0 <= i < |pieces| ensures UnitTexts(WholePieces(pieces))[i] == pieces[i] {
      assert Join([pieces[i]], []) == pieces[i] + [];
    }
  }

  /** With a lossless host, every unit stands for exactly one piece of the
      split of the text at the mode's separator, in every mode. */
  lemma UnitTextsArePieces(text: string, splitBy: string, host: Host)
    requires Lossless(host)
    ensures UnitTexts(Elements(text, splitBy, host)) == Split(text, Separator(splitBy))
  {
    var r := Elements(text, splitBy, host);
    if splitBy == "characters" {
      var words := Split(text, " ");
      forall i | 0 <= i < |words| ensures UnitText(r[i]) == words[i] {
        if host.CodePointFallback? {
          JoinSplit(words[i], []);
        }
      }
    } else if splitBy == "words" {
      UnitTextsOfWholePieces(Split(text, " "));
    } else if splitBy == "lines" {
      UnitTextsOfWholePieces(Split(text, "\n"));
    } else {
      UnitTextsOfWholePieces(Split(text, splitBy));
    }
  }

  /** Round trip for every mode: joining the units' texts with the mode's
      separator gives back the active text. */
  lemma ElementsRoundTrip(text: string, splitBy: string, host: Host)
    requires Lossless(host)
    ensures Join(UnitTexts(Elements(text, splitBy, host)), Separator(splitBy)) == text
  {
    UnitTextsArePieces(text, splitBy, host);
    JoinSplit(text, Separator(splitBy));
  }

  /** Words mode: one whole word per unit, as many units as there are spaces
      plus one, no unit contains a space, and the words joined with single
      spaces are the text. */
  lemma WordsMode(text: string, host: Host)
    ensures var r := Elements(text, "words", host);
      && |r| == Occurrences(text, ' ') + 1
      && (forall i :: 0 <= i < |r| ==> |r[i].characters| == 1 && ' ' !in r[i].characters[0])
      && Join(UnitTexts(r), " ") == text
  {
    var words := Split(text, " ");
    SplitCount(text, ' ');
    SplitPiecesFree(text, ' ');
    UnitTextsOfWholePieces(words);
    JoinSplit(text, " ");
  }

  /** Lines mode: one whole line per unit, no unit contains a newline, and the
      lines joined with newlines are the text. */
  lemma LinesMode(text: string, host: Host)
    ensures var r := Elements(text, "lines", host);
      && |r| == Occurrences(text, '\n') + 1
      && (forall i :: 0 <= i < |r| ==> |r[i].characters| == 1 && '\n' !in r[i].characters[0])
      && Join(UnitTexts(r), "\n") == text
  {
    var lines := Split(text, "\n");
    SplitCount(text, '\n');
    SplitPiecesFree(text, '\n');
    UnitTextsOfWholePieces(lines);
    JoinSplit(text, "\n");
  }

  /** Custom-delimiter mode: one piece per unit, and the pieces joined with the
      literal delimiter are the text. */
  lemma CustomMode(text: string, splitBy: string, host: Host)
    requires splitBy != "characters" && splitBy != "words" && splitBy != "lines"
    ensures var r := Elements(text, splitBy, host);
      && (forall i :: 0 <= i < |r| ==> |r[i].characters| == 1)
      && Join(UnitTexts(r), splitBy) == text
  {
    UnitTextsOfWholePieces(Split(text, splitBy));
    JoinSplit(text, splitBy);
  }

  /** Characters mode under the code-point fallback: one unit per word (spaces
      plus one), each unit's characters are single code points that spell the
      word, and the words joined with single spaces are the text. */
  lemma CharactersModeFallback(text: string)
    ensures var r := Elements(text, "characters", CodePointFallback);
      && |r| == Occurrences(text, ' ') + 1
      && (forall i :: 0 <= i < |r| ==>
            (forall j :: 0 <= j < |r[i].characters| ==> |r[i].characters[j]| == 1)
            && ' ' !in UnitText(r[i]))
      && Join(UnitTexts(r), " ") == text
  {
    var words := Split(text, " ");
    SplitCount(text, ' ');
    SplitPiecesFree(text, ' ');
    UnitTextsArePieces(text, "characters", CodePointFallback);
    JoinSplit(text, " ");
  }

  /** The text the render shows: each unit's characters, followed by a
      literal space span when the unit needs a space, whatever the mode. */
  function RenderedText(units: seq<Unit>): string
  {
    if units == [] then []
    else UnitText(units[0]) + (if units[0].needsSpace then " " else []) + RenderedText(units[1..])
  }

  /** When exactly the last unit needs a space, the render shows the units'
      texts joined with single spaces. */
  lemma {:induction false} RenderedIsSpaceJoin(units: seq<Unit>)
    requires forall i :: 0 <= i < |units| ==> (units[i].needsSpace <==> i != |units| - 1)
    ensures RenderedText(units) == Join(UnitTexts(units), " ")
  {
    if units != [] {
      var rest := units[1..];
      assert UnitTexts(units)[1..] == UnitTexts(rest);
      if rest == [] {
        assert RenderedText(units) == UnitText(units[0]);
      } else {
        RenderedIsSpaceJoin(rest);
        JoinRestIsSeparatorThenJoin(UnitTexts(rest), " ");
      }
    }
  }

  /** What the render shows for a text: its pieces at the mode's separator,
      joined with single spaces. In characters and words mode that is the
      text itself; in lines and custom-delimiter mode every separator is
      shown as a space. */
  lemma RenderedElements(text: string, splitBy: string, host: Host)
    requires Lossless(host)
    ensures RenderedText(Elements(text, splitBy, host)) == Join(Split(text, Separator(splitBy)), " ")
    ensures splitBy == "characters" || splitBy == "words" ==> RenderedText(Elements(text, splitBy, host)) == text
  {
    RenderedIsSpaceJoin(Elements(text, splitBy, host));
    UnitTextsArePieces(text, splitBy, host);
    JoinSplit(text, " ");
  }

  /** A custom delimiter is shown as a space: "a-b" cut at "-" shows "a b". */
  lemma CustomDelimiterShownAsSpace()
    ensures RenderedText(Elements("a-b", "-", CodePointFallback)) == "a b"
  {
    var pieces := ["a", "b"];
    assert Join(pieces, "-") == "a-b" by {
      assert JoinRest(pieces[1..], "-") == "-b";
    }
    SplitJoin(pieces, '-');
    assert Join(pieces, " ") == "a b" by {
      assert JoinRest(pieces[1..], " ") == " b";
    }
    RenderedElements("a-b", "-", CodePointFallback);
  }

  /** In lines mode a newline is shown as a space: "a\nb" shows "a b". */
  lemma NewlineShownAsSpace()
    ensures RenderedText(Elements("a\nb", "lines", CodePointFallback)) == "a b"
  {
    var pieces := ["a", "b"];
    assert Join(pieces, "\n") == "a\nb" by {
      assert JoinRest(pieces[1..], "\n") == "\nb";
    }
    SplitJoin(pieces, '\n');
    assert Join(pieces, " ") == "a b" by {
      assert JoinRest(pieces[1..], " ") == " b";
    }
    RenderedElements("a\nb", "lines", CodePointFallback);
  }

  /** The empty text still yields one (empty) unit for every non-empty
      separator, but none for an empty custom delimiter. */
  lemma EmptyText(splitBy: string, host: Host)
    ensures |Elements([], splitBy, host)| == if splitBy == [] then 0 else 1
  {
  }
}
