/**
  The text-cleaning stage: three line filters that drop page furniture
  (running headers, licence footers, figure captions) and the cut that
  discards the front matter before the first glossary entry.

  Each filter splits the text at line breaks, strips every line, keeps
  blank lines as empty lines, drops the lines of its categories while
  counting them, and joins the rest again. The counts the source prints
  are returned as a summary instead.
 */
module PdfProcessor {
  import opened Optional
  import opened Text
  import opened IntegerSyntax
  import opened Sequences

  /** What a filter decides about one stripped line: keep it, or drop it
      under one of the categories the filter counts. */
  datatype Verdict =
    | Kept
    | PageNumber | IsoCopyright | IeeeCopyright
    | LicensedTo | StoreOrder | SingleUserLicence | StandardReference
    | FigureCaption

  const IsoCopyrightPrefix := "\U{A9} ISO/IEC 2017"
  const IeeeCopyrightPrefix := "\U{A9} IEEE 2017"
  const LicensedToPrefix := "Licensed to "
  const StoreOrderPrefix := "ISO Store Order: "
  const SingleUserPrefix := "Single user licence only, "
  const StandardReferenceLine := "ISO/IEC/IEEE 24765:2017(E)"
  const FigurePrefix := "Figure "

  /** The header filter's decision on a stripped line, tests in source order. */
  function HeaderVerdict(line: string): Verdict {
    if line == "" then Kept
    else if IsInteger(line) then PageNumber
    else if StartsWith(line, IsoCopyrightPrefix) then IsoCopyright
    else if StartsWith(line, IeeeCopyrightPrefix) then IeeeCopyright
    else Kept
  }

  /** The footer filter's decision on a stripped line, tests in source order. */
  function FooterVerdict(line: string): Verdict {
    if line == "" then Kept
    else if StartsWith(line, LicensedToPrefix) then LicensedTo
    else if StartsWith(line, StoreOrderPrefix) then StoreOrder
    else if StartsWith(line, SingleUserPrefix) then SingleUserLicence
    else if line == StandardReferenceLine then StandardReference
    else Kept
  }

  /** The figure filter's decision on a stripped line. */
  function FigureVerdict(line: string): Verdict {
    if StartsWith(line, FigurePrefix) then FigureCaption else Kept
  }

  /** What a filter deciding by `verdict` leaves of one input line: the
      stripped line, or nothing. */
  function Survivor(verdict: string -> Verdict, line: string): seq<string> {
    var t := Strip(line);
    if verdict(t) == Kept then [t] else []
  }

  /** The lines a filter deciding by `verdict` leaves of `ls`, in order. */
  function Clean(verdict: string -> Verdict, ls: seq<string>): seq<string>
    decreases |ls|
  {
    if ls == [] then [] else Clean(verdict, ls[..|ls| - 1]) + Survivor(verdict, ls[|ls| - 1])
  }

  /** How many lines of `ls` the filter puts in category `v`. */
  function Tally(verdict: string -> Verdict, ls: seq<string>, v: Verdict): nat
    decreases |ls|
  {
    if ls == [] then 0
    else Tally(verdict, ls[..|ls| - 1], v) + (if verdict(Strip(ls[|ls| - 1])) == v then 1 else 0)
  }

  /** The text a filter deciding by `verdict` returns for `text`. */
  function FilterText(verdict: string -> Verdict, text: string): string {
    Join(Clean(verdict, Split(text)))
  }

  /** Lines that are their own strip and that the filter keeps. */
  predicate AllKept(verdict: string -> Verdict, ls: seq<string>) {
    forall k :: 0 <= k < |ls| ==> Strip(ls[k]) == ls[k] && verdict(ls[k]) == Kept
  }

  /** Extending the prefix of `ls` by the line at `k` adds that line's
      survivor to the result and its verdict to the tallies. */
  lemma FilterStep(verdict: string -> Verdict, ls: seq<string>, k: int)
    requires 0 <= k < |ls|
    ensures Clean(verdict, ls[..k + 1]) == Clean(verdict, ls[..k]) + Survivor(verdict, ls[k])
    ensures forall v ::
      Tally(verdict, ls[..k + 1], v) == Tally(verdict, ls[..k], v) + (if verdict(Strip(ls[k])) == v then 1 else 0)
  {
    TakeOneMore(ls, k);
  }

  // ---------------------------------------------------------------------
  // The filters as the source runs them

  /** The counts `remove_header_blocks` reports. */
  datatype HeaderSummary = HeaderSummary(pageNumbers: nat, isoCopyright: nat, ieeeCopyright: nat) {
    function Total(): nat { pageNumbers + isoCopyright + ieeeCopyright }
  }

  /** The counts `remove_footer_blocks` reports. */
  datatype FooterSummary = FooterSummary(licensedTo: nat, storeOrder: nat, singleUser: nat, standardReference: nat) {
    function Total(): nat { licensedTo + storeOrder + singleUser + standardReference }
  }

  /** Drops page numbers and the two copyright lines. */
  method RemoveHeaderBlocks(text: string) returns (r: string, summary: HeaderSummary)
    ensures r == FilterText(HeaderVerdict, text)
    ensures summary.pageNumbers == Tally(HeaderVerdict, Split(text), PageNumber)
    ensures summary.isoCopyright == Tally(HeaderVerdict, Split(text), IsoCopyright)
    ensures summary.ieeeCopyright == Tally(HeaderVerdict, Split(text), IeeeCopyright)
    ensures summary.Total() == |Split(text)| - |Clean(HeaderVerdict, Split(text))|
  {
    var lines := Split(text);
    var result: seq<string> := [];
    var pageNumbers, isoCopyright, ieeeCopyright := 0, 0, 0;
    for k := 0 to |lines|
      invariant result == Clean(HeaderVerdict, lines[..k])
      invariant pageNumbers == Tally(HeaderVerdict, lines[..k], PageNumber)
      invariant isoCopyright == Tally(HeaderVerdict, lines[..k], IsoCopyright)
      invariant ieeeCopyright == Tally(HeaderVerdict, lines[..k], IeeeCopyright)
      invariant pageNumbers + isoCopyright + ieeeCopyright == k - |result|
    {
      FilterStep(HeaderVerdict, lines, k);
      var line := Strip(lines[k]);
      if line == "" {
        result := result + [line];
      } else if IsInteger(line) {
        pageNumbers := pageNumbers + 1;
      } else if StartsWith(line, IsoCopyrightPrefix) {
        isoCopyright := isoCopyright + 1;
      } else if StartsWith(line, IeeeCopyrightPrefix) {
        ieeeCopyright := ieeeCopyright + 1;
      } else {
        result := result + [line];
      }
    }
    TakeAll(lines);
    r := Join(result);
    summary := HeaderSummary(pageNumbers, isoCopyright, ieeeCopyright);
  }

  /** Drops the licence, store-order and single-user lines and the line
      naming the standard. */
  method RemoveFooterBlocks(text: string) returns (r: string, summary: FooterSummary)
    ensures r == FilterText(FooterVerdict, text)
    ensures summary.licensedTo == Tally(FooterVerdict, Split(text), LicensedTo)
    ensures summary.storeOrder == Tally(FooterVerdict, Split(text), StoreOrder)
    ensures summary.singleUser == Tally(FooterVerdict, Split(text), SingleUserLicence)
    ensures summary.standardReference == Tally(FooterVerdict, Split(text), StandardReference)
    ensures summary.Total() == |Split(text)| - |Clean(FooterVerdict, Split(text))|
  {
    var lines := Split(text);
    var result: seq<string> := [];
    var licensedTo, storeOrder, singleUser, standardReference := 0, 0, 0, 0;
    for k := 0 to |lines|
      invariant result == Clean(FooterVerdict, lines[..k])
      invariant licensedTo == Tally(FooterVerdict, lines[..k], LicensedTo)
      invariant storeOrder == Tally(FooterVerdict, lines[..k], StoreOrder)
      invariant singleUser == Tally(FooterVerdict, lines[..k], SingleUserLicence)
      invariant standardReference == Tally(FooterVerdict, lines[..k], StandardReference)
      invariant licensedTo + storeOrder + singleUser + standardReference == k - |result|
    {
      FilterStep(FooterVerdict, lines, k);
      var line := Strip(lines[k]);
      if line == "" {
        result := result + [line];
      } else if StartsWith(line, LicensedToPrefix) {
        licensedTo := licensedTo + 1;
      } else if StartsWith(line, StoreOrderPrefix) {
        storeOrder := storeOrder + 1;
      } else if StartsWith(line, SingleUserPrefix) {
        singleUser := singleUser + 1;
      } else if line == StandardReferenceLine {
        standardReference := standardReference + 1;
      } else {
        result := result + [line];
      }
    }
    TakeAll(lines);
    r := Join(result);
    summary := FooterSummary(licensedTo, storeOrder, singleUser, standardReference);
  }

  /** Drops the figure captions; returns the text and how many were dropped. */
  method DeleteFigureLines(text: string) returns (r: string, figureLines: nat)
    ensures r == FilterText(FigureVerdict, text)
    ensures figureLines == Tally(FigureVerdict, Split(text), FigureCaption)
    ensures figureLines == |Split(text)| - |Clean(FigureVerdict, Split(text))|
  {
    var lines := Split(text);
    var result: seq<string> := [];
    figureLines := 0;
    for k := 0 to |lines|
      invariant result == Clean(FigureVerdict, lines[..k])
      invariant figureLines == Tally(FigureVerdict, lines[..k], FigureCaption)
      invariant figureLines == k - |result|
    {
      FilterStep(FigureVerdict, lines, k);
      var line := Strip(lines[k]);
      if StartsWith(line, FigurePrefix) {
        figureLines := figureLines + 1;
      } else {
        result := result + [line];
      }
    }
    TakeAll(lines);
    r := Join(result);
  }

  // ---------------------------------------------------------------------
  // What the filters keep

  /** Filtering distributes over concatenation, so survivors keep their order. */
  lemma {:induction false} CleanAppend(verdict: string -> Verdict, a: seq<string>, b: seq<string>)
    ensures Clean(verdict, a + b) == Clean(verdict, a) + Clean(verdict, b)
    decreases |b|
  {
    if b == [] {
      assert a + b == a;
    } else {
      var b' := b[..|b| - 1];
      AppendInit(a, b);
      CleanAppend(verdict, a, b');
    }
  }

  /** Every surviving line is stripped, free of line breaks and kept by the
      filter, and there are never more of them than input lines. */
  lemma {:induction false} CleanSurvivors(verdict: string -> Verdict, ls: seq<string>)
    requires forall k :: 0 <= k < |ls| ==> '\n' !in ls[k]
    ensures |Clean(verdict, ls)| <= |ls|
    ensures AllKept(verdict, Clean(verdict, ls))
    ensures forall k :: 0 <= k < |Clean(verdict, ls)| ==> '\n' !in Clean(verdict, ls)[k]
    decreases |ls|
  {
    if ls != [] {
      var last := ls[|ls| - 1];
      CleanSurvivors(verdict, ls[..|ls| - 1]);
      StripIdempotent(last);
      StripNoNewline(last);
    }
  }

  /** A line survives exactly when it is the strip of an input line that the
      filter keeps. */
  lemma {:induction false} CleanExact(verdict: string -> Verdict, ls: seq<string>, x: string)
    ensures x in Clean(verdict, ls) <==> exists k :: 0 <= k < |ls| && x == Strip(ls[k]) && verdict(x) == Kept
    decreases |ls|
  {
    if ls != [] {
      var init := ls[..|ls| - 1];
      var last := ls[|ls| - 1];
      CleanExact(verdict, init, x);
      assert Clean(verdict, ls) == Clean(verdict, init) + Survivor(verdict, last);
      assert x in Survivor(verdict, last) <==> x == Strip(last) && verdict(x) == Kept;
      if x in Clean(verdict, ls) {
        if x in Clean(verdict, init) {
          var k :| 0 <= k < |init| && x == Strip(init[k]) && verdict(x) == Kept;
          assert ls[k] == init[k];
        } else {
          assert x == Strip(ls[|ls| - 1]);
        }
      }
      if k :| 0 <= k < |ls| && x == Strip(ls[k]) && verdict(x) == Kept {
        if k < |init| {
          assert init[k] == ls[k];
        } else {
          assert x in Survivor(verdict, last);
        }
      }
    }
  }

  /** Lines that are already stripped and kept come through unchanged. */
  lemma {:induction false} CleanFixed(verdict: string -> Verdict, ls: seq<string>)
    requires AllKept(verdict, ls)
    ensures Clean(verdict, ls) == ls
    decreases |ls|
  {
    if ls != [] {
      var init, last := ls[..|ls| - 1], ls[|ls| - 1];
      assert AllKept(verdict, init) by {
        forall k | 0 <= k < |init| ensures Strip(init[k]) == init[k] && verdict(init[k]) == Kept {
          assert init[k] == ls[k];
        }
      }
      CleanFixed(verdict, init);
      assert Survivor(verdict, last) == [last];
      InitLast(ls);
    }
  }

  /** Under a filter that keeps the empty line, a blank line becomes an
      empty line in place. */
  lemma CleanKeepsBlank(verdict: string -> Verdict, ls: seq<string>, k: int)
    requires verdict("") == Kept
    requires 0 <= k < |ls| && Strip(ls[k]) == ""
    ensures Clean(verdict, ls) == Clean(verdict, ls[..k]) + [""] + Clean(verdict, ls[k + 1..])
  {
    var upto := ls[..k + 1];
    TakeOneMore(ls, k);
    assert Clean(verdict, upto) == Clean(verdict, ls[..k]) + [""];
    TakeDrop(ls, k + 1);
    CleanAppend(verdict, upto, ls[k + 1..]);
  }

  /** None of the three filters drops a blank or white-space-only line: it
      comes out as an empty line in its place. */
  lemma BlankLinesKept(ls: seq<string>, k: int)
    requires 0 <= k < |ls| && AllSpace(ls[k])
    ensures Clean(HeaderVerdict, ls) == Clean(HeaderVerdict, ls[..k]) + [""] + Clean(HeaderVerdict, ls[k + 1..])
    ensures Clean(FooterVerdict, ls) == Clean(FooterVerdict, ls[..k]) + [""] + Clean(FooterVerdict, ls[k + 1..])
    ensures Clean(FigureVerdict, ls) == Clean(FigureVerdict, ls[..k]) + [""] + Clean(FigureVerdict, ls[k + 1..])
  {
    StripEmptyIff(ls[k]);
    CleanKeepsBlank(HeaderVerdict, ls, k);
    CleanKeepsBlank(FooterVerdict, ls, k);
    CleanKeepsBlank(FigureVerdict, ls, k);
  }

  /** The counters of a filter add up to the number of lines it removed. */
  lemma {:induction false} TalliesCoverRemovals(ls: seq<string>)
    ensures Tally(HeaderVerdict, ls, PageNumber) + Tally(HeaderVerdict, ls, IsoCopyright)
          + Tally(HeaderVerdict, ls, IeeeCopyright) == |ls| - |Clean(HeaderVerdict, ls)|
    ensures Tally(FooterVerdict, ls, LicensedTo) + Tally(FooterVerdict, ls, StoreOrder)
          + Tally(FooterVerdict, ls, SingleUserLicence) + Tally(FooterVerdict, ls, StandardReference)
          == |ls| - |Clean(FooterVerdict, ls)|
    ensures Tally(FigureVerdict, ls, FigureCaption) == |ls| - |Clean(FigureVerdict, ls)|
    decreases |ls|
  {
    if ls != [] {
      TalliesCoverRemovals(ls[..|ls| - 1]);
    }
  }

  /** Which stripped lines each filter keeps. For the header filter a line
      goes when it follows the grammar `int()` accepts, which allows a sign
      and underscores between digits, or when it starts with either
      copyright notice. */
  lemma KeptIff(t: string)
    requires Strip(t) == t
    ensures HeaderVerdict(t) == Kept <==>
      t == "" || (!IntegerLiteral(t) && !StartsWith(t, IsoCopyrightPrefix) && !StartsWith(t, IeeeCopyrightPrefix))
    ensures FooterVerdict(t) == Kept <==>
      t == "" || (!StartsWith(t, LicensedToPrefix) && !StartsWith(t, StoreOrderPrefix)
                  && !StartsWith(t, SingleUserPrefix) && t != StandardReferenceLine)
    ensures FigureVerdict(t) == Kept <==> !StartsWith(t, FigurePrefix)
  {
    IsIntegerIff(t);
  }

  /** Filtering the output of a filter again changes nothing. */
  lemma FilterTextIdempotent(verdict: string -> Verdict, text: string)
    ensures FilterText(verdict, FilterText(verdict, text)) == FilterText(verdict, text)
  {
    var c := Clean(verdict, Split(text));
    CleanSurvivors(verdict, Split(text));
    if c == [] {
      assert Split("") == [""];
      assert Clean(verdict, [""]) == Clean(verdict, []) + Survivor(verdict, "");
    } else {
      SplitJoin(c);
      CleanFixed(verdict, c);
    }
  }

  /** A second filter keeps what survives the first exactly when it keeps
      the stripped line too. */
  lemma CleanSurvivor(a: string -> Verdict, b: string -> Verdict, line: string)
    ensures Clean(a, Survivor(b, line)) ==
      if a(Strip(line)) == Kept && b(Strip(line)) == Kept then [Strip(line)] else []
  {
    var t := Strip(line);
    if b(t) == Kept {
      StripIdempotent(line);
      assert Survivor(b, line) == [t];
      assert [t][..0] == [];
      assert Clean(a, [t]) == Clean(a, []) + Survivor(a, t);
    }
  }

  /** Two filters applied one after the other leave the same lines in
      either order. */
  lemma {:induction false} CleanCommute(a: string -> Verdict, b: string -> Verdict, ls: seq<string>)
    ensures Clean(a, Clean(b, ls)) == Clean(b, Clean(a, ls))
    decreases |ls|
  {
    if ls != [] {
      var init, last := ls[..|ls| - 1], ls[|ls| - 1];
      CleanCommute(a, b, init);
      CleanAppend(a, Clean(b, init), Survivor(b, last));
      CleanAppend(b, Clean(a, init), Survivor(a, last));
      CleanSurvivor(a, b, last);
      CleanSurvivor(b, a, last);
    }
  }

  /** The lines of a filter's output are the surviving lines, or a single
      empty line when none survives. */
  lemma SplitFilterText(verdict: string -> Verdict, text: string)
    ensures var c := Clean(verdict, Split(text));
      Split(FilterText(verdict, text)) == if c == [] then [""] else c
  {
    var c := Clean(verdict, Split(text));
    CleanSurvivors(verdict, Split(text));
    if c != [] {
      SplitJoin(c);
    }
  }

  /** Every line of a filter's output is stripped and kept by the filter, and
      is empty or the strip of an input line. */
  lemma FilterTextLines(verdict: string -> Verdict, text: string)
    requires verdict("") == Kept
    ensures AllKept(verdict, Split(FilterText(verdict, text)))
    ensures forall x :: x in Split(FilterText(verdict, text)) ==>
      x == "" || exists k :: 0 <= k < |Split(text)| && x == Strip(Split(text)[k])
  {
    var ls := Split(text);
    var out := Split(FilterText(verdict, text));
    SplitFilterText(verdict, text);
    CleanSurvivors(verdict, ls);
    StripUnpadded("");
    forall x | x in out && x != ""
      ensures exists k :: 0 <= k < |ls| && x == Strip(ls[k])
    {
      CleanExact(verdict, ls, x);
    }
  }

  /** Filters that keep the empty line give the same text in either order:
      the header, footer and figure filters can run in any order. */
  lemma FiltersCommute(a: string -> Verdict, b: string -> Verdict, text: string)
    requires a("") == Kept && b("") == Kept
    ensures FilterText(a, FilterText(b, text)) == FilterText(b, FilterText(a, text))
  {
    var ls := Split(text);
    var ca, cb := Clean(a, ls), Clean(b, ls);
    SplitFilterText(a, text);
    SplitFilterText(b, text);
    CleanCommute(a, b, ls);
    assert Clean(a, [""]) == Clean(a, []) + Survivor(a, "");
    assert Clean(b, [""]) == Clean(b, []) + Survivor(b, "");
    StripUnpadded("");
  }

  /** A text whose lines are stripped and contain no caption comes back from
      the figure filter unchanged. */
  lemma FigureFreeTextUnchanged(text: string)
    requires forall k :: 0 <= k < |Split(text)| ==>
      Strip(Split(text)[k]) == Split(text)[k] && !StartsWith(Split(text)[k], FigurePrefix)
    ensures FilterText(FigureVerdict, text) == text
  {
    CleanFixed(FigureVerdict, Split(text));
    JoinSplit(text);
  }

  /** Page numbers with a sign or with an underscore are dropped as page
      numbers; a term identifier is not a page number. */
  lemma PageNumberExamples()
    ensures HeaderVerdict("-3") == PageNumber
    ensures HeaderVerdict("1_000") == PageNumber
    ensures HeaderVerdict("3.1") == Kept
  {
    StripUnpadded("-3");
    StripUnpadded("1_000");
    StripUnpadded("3.1");
    assert Scan(Start, "3.1") == Rejected by {
      assert "3.1"[1..] == ".1";
      assert ".1"[1..] == "1";
      RejectedIsFinal("1");
    }
  }

  // ---------------------------------------------------------------------
  // The cut before the first entry

  /** The substring whose first occurrence marks the first entry. */
  const Anchor := "3.1"

  /** The index of the first line containing the anchor anywhere in it. */
  function FirstAnchor(ls: seq<string>): (r: Option<nat>)
    ensures r.None? <==> forall j :: 0 <= j < |ls| ==> !Contains(ls[j], Anchor)
    ensures r.Some? ==> r.value < |ls| && Contains(ls[r.value], Anchor)
    ensures r.Some? ==> forall j :: 0 <= j < r.value ==> !Contains(ls[j], Anchor)
  {
    if ls == [] then None
    else if Contains(ls[0], Anchor) then Some(0)
    else match FirstAnchor(ls[1..])
      case None => None
      case Some(k) => Some(k + 1)
  }

  /** The text from the first anchor line on, or the text itself when no
      line contains the anchor. */
  function CutBefore31(text: string): string {
    var ls := Split(text);
    match FirstAnchor(ls)
    case None => text
    case Some(k) => Join(ls[k..])
  }

  /** Drops the lines before the first one containing "3.1"; `anchor` is the
      number of lines dropped, or None when no line has the anchor. */
  method DeleteLinesBefore31(text: string) returns (r: string, anchor: Option<nat>)
    ensures anchor == FirstAnchor(Split(text))
    ensures r == CutBefore31(text)
  {
    var lines := Split(text);
    var foundIndex := -1;
    var i := 0;
    while i < |lines|
      invariant 0 <= i <= |lines|
      invariant foundIndex == -1
      invariant forall j :: 0 <= j < i ==> !Contains(lines[j], Anchor)
    {
      if Contains(lines[i], Anchor) {
        foundIndex := i;
        break;
      }
      i := i + 1;
    }
    if foundIndex == -1 {
      r, anchor := text, None;
    } else {
      r, anchor := Join(lines[foundIndex..]), Some(foundIndex);
    }
  }

  /** The cut returns a suffix of the text: the whole text when no line holds
      the anchor, otherwise the lines from the anchor line on, untrimmed,
      after exactly as many dropped lines as the anchor's index. */
  lemma CutIsSuffix(text: string)
    ensures FirstAnchor(Split(text)).None? ==> CutBefore31(text) == text
    ensures FirstAnchor(Split(text)).Some? ==>
      var k := FirstAnchor(Split(text)).value;
      && Split(CutBefore31(text)) == Split(text)[k..]
      && (k == 0 ==> CutBefore31(text) == text)
      && (k > 0 ==> text == Join(Split(text)[..k]) + "\n" + CutBefore31(text))
  {
    var ls := Split(text);
    JoinSplit(text);
    if FirstAnchor(ls).Some? {
      var k := FirstAnchor(ls).value;
      SplitJoin(ls[k..]);
      if k == 0 {
        assert ls[0..] == ls;
      } else {
        TakeDrop(ls, k);
        JoinAppend(ls[..k], ls[k..]);
      }
    }
  }

  /** Every line left by the cut is a line of the text. */
  lemma CutKeepsLines(text: string)
    ensures forall y :: y in Split(CutBefore31(text)) ==> y in Split(text)
  {
    var ls := Split(text);
    CutIsSuffix(text);
    if FirstAnchor(ls).Some? {
      DropKeeps(ls, FirstAnchor(ls).value);
    }
  }

  /** Cutting twice cuts nothing more. */
  lemma CutIdempotent(text: string)
    ensures CutBefore31(CutBefore31(text)) == CutBefore31(text)
  {
    CutIsSuffix(text);
    var ls := Split(text);
    if FirstAnchor(ls).Some? {
      var k := FirstAnchor(ls).value;
      var r := CutBefore31(text);
      assert Split(r)[0] == ls[k];
      assert FirstAnchor(Split(r)) == Some(0);
      JoinSplit(r);
      assert Split(r)[0..] == Split(r);
    }
  }
}
