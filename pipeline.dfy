/**
  The order in which the extractor's entry point runs the stages on the text
  of the PDF: header filter, footer filter, the cut before the first entry,
  figure filter, then the segmenter.
 */
module Pipeline {
  import opened Text
  import opened PdfProcessor
  import opened Description
  import opened DataExtractor

  /** The text after the four cleaning stages. */
  function CleanedText(text: string): string {
    FilterText(FigureVerdict, CutBefore31(FilterText(FooterVerdict, FilterText(HeaderVerdict, text))))
  }

  /** A stripped line that none of the three filters would drop. */
  predicate Clear(line: string) {
    Strip(line) == line && HeaderVerdict(line) == Kept && FooterVerdict(line) == Kept && FigureVerdict(line) == Kept
  }

  /** The stages of the entry point, in its order, on text already taken out
      of the PDF. */
  method ExtractGlossary(text: string) returns (cleaned: string, entries: seq<Entry>)
    ensures cleaned == CleanedText(text)
    ensures entries == Segment(cleaned, SemanticJoin)
    ensures forall e :: e in entries ==> WellFormed(e) && Clear(e.wordNumber) && Clear(e.word)
  {
    var headerless, _ := RemoveHeaderBlocks(text);
    var footerless, _ := RemoveFooterBlocks(headerless);
    var cut, _ := DeleteLinesBefore31(footerless);
    var figureless, _ := DeleteFigureLines(cut);
    cleaned := figureless;
    entries := ExtractWordsAndDescriptions(cleaned, SemanticJoin);
    EntriesClear(text);
  }

  /** After the header and the footer filter, every line is stripped and
      neither filter would drop it. */
  lemma HeaderClearAfterFooter(text: string)
    ensures forall x :: x in Split(FilterText(FooterVerdict, FilterText(HeaderVerdict, text))) ==>
      Strip(x) == x && HeaderVerdict(x) == Kept && FooterVerdict(x) == Kept
  {
    var t1 := FilterText(HeaderVerdict, text);
    var t2 := FilterText(FooterVerdict, t1);
    FilterTextLines(HeaderVerdict, text);
    FilterTextLines(FooterVerdict, t1);
    forall x | x in Split(t2)
      ensures Strip(x) == x && HeaderVerdict(x) == Kept && FooterVerdict(x) == Kept
    {
      var j :| 0 <= j < |Split(t2)| && Split(t2)[j] == x;
      if x != "" {
        var k :| 0 <= k < |Split(t1)| && x == Strip(Split(t1)[k]);
        assert Strip(Split(t1)[k]) == Split(t1)[k];
      }
    }
  }

  /** Every line of the cleaned text is stripped and clear of page numbers,
      copyright notices, licence lines, the standard's running reference and
      figure captions. */
  lemma CleanedLinesClear(text: string)
    ensures forall x :: x in Split(CleanedText(text)) ==> Clear(x)
  {
    var t2 := FilterText(FooterVerdict, FilterText(HeaderVerdict, text));
    var t3 := CutBefore31(t2);
    var t4 := FilterText(FigureVerdict, t3);
    HeaderClearAfterFooter(text);
    CutKeepsLines(t2);
    FilterTextLines(FigureVerdict, t3);
    forall x | x in Split(t4) ensures Clear(x) {
      var j :| 0 <= j < |Split(t4)| && Split(t4)[j] == x;
      if x != "" {
        var k :| 0 <= k < |Split(t3)| && x == Strip(Split(t3)[k]);
        assert Split(t3)[k] in Split(t2);
      }
    }
  }

  /** The entries of the cleaned text are well formed, and neither an
      identifier nor a term is a line any filter would have dropped. */
  lemma EntriesClear(text: string)
    ensures forall e :: e in Segment(CleanedText(text), SemanticJoin) ==>
      WellFormed(e) && Clear(e.wordNumber) && Clear(e.word)
  {
    var ls := Split(CleanedText(text));
    CleanedLinesClear(text);
    SegmentWellFormed(CleanedText(text), SemanticJoin);
    forall e | e in Segment(CleanedText(text), SemanticJoin)
      ensures Clear(e.wordNumber) && Clear(e.word)
    {
      var h :| 0 <= h < |ls| - 1 && e.wordNumber == Strip(ls[h]) && e.word == Strip(ls[h + 1]);
      assert ls[h] in ls && ls[h + 1] in ls;
    }
  }
}
