/**
  The entry segmenter: a scan over the lines of the cleaned text that keeps
  the current identifier, the current term and the pending description
  lines, and emits one entry per identifier whose term and description are
  both present.

  The specification below reads the same text declaratively: `Heads` lists
  the lines the scan takes as identifiers (the line after an identifier is
  always its term, so it is never one), and each identifier's description is
  made of the non-blank lines between its term and the next identifier.
 */
module DataExtractor {
  import opened Optional
  import opened Text
  import opened IntegerSyntax
  import opened Description

  /** One glossary record: `word_number`, `word` and `description`. */
  datatype Entry = Entry(wordNumber: string, word: string, description: string)

  /** The identifier pattern `^3\.\d+$`, matched against a stripped line. */
  predicate IsIdentifier(line: string) {
    |line| >= 3 && line[0] == '3' && line[1] == '.' && forall k :: 2 <= k < |line| ==> IsDigit(line[k])
  }

  /** The lines of a text, each stripped as the scan strips it. */
  function Stripped(ls: seq<string>): (ss: seq<string>)
    ensures |ss| == |ls|
    ensures forall k :: 0 <= k < |ls| ==> ss[k] == Strip(ls[k])
  {
    seq(|ls|, k requires 0 <= k < |ls| => Strip(ls[k]))
  }

  /** The positions, from `i` on, of the stripped lines `ss` the scan takes
      as identifiers: blank lines are skipped, and an identifier's next line
      is its term. */
  function Heads(ss: seq<string>, i: nat): seq<nat>
    decreases |ss| - i
  {
    if i >= |ss| then []
    else if ss[i] == "" then Heads(ss, i + 1)
    else if IsIdentifier(ss[i]) then [i] + Heads(ss, i + 2)
    else Heads(ss, i + 1)
  }

  /** The non-blank lines among `ss[lo..hi]`, in order. */
  function Gather(ss: seq<string>, lo: nat, hi: nat): seq<string>
    decreases hi
  {
    if hi <= lo then []
    else Gather(ss, lo, hi - 1) + (if hi - 1 < |ss| && ss[hi - 1] != "" then [ss[hi - 1]] else [])
  }

  /** The entry of the identifier at line `h` whose description ends before
      line `close`: present when the identifier has a non-empty term and at
      least one description line. */
  function EntryAt(ss: seq<string>, h: nat, close: nat, describe: seq<string> -> string): seq<Entry> {
    if h + 1 >= |ss| then []
    else
      var lines := Gather(ss, h + 2, close);
      if ss[h + 1] != "" && lines != [] then [Entry(ss[h], ss[h + 1], describe(lines))] else []
  }

  /** The entries of the identifiers at `hs`, each closed by the next one and
      the last by `close`. */
  function Blocks(ss: seq<string>, hs: seq<nat>, close: nat, describe: seq<string> -> string): seq<Entry>
    decreases |hs|
  {
    if hs == [] then []
    else
      var last := hs[|hs| - 1];
      Blocks(ss, hs[..|hs| - 1], last, describe) + EntryAt(ss, last, close, describe)
  }

  /** How a strategy turns description lines into a description. */
  function Describer(strategy: JoinStrategy): seq<string> -> string {
    lines => Describe(strategy, lines)
  }

  /** The entries of `text`. */
  function Segment(text: string, strategy: JoinStrategy): seq<Entry> {
    var ss := Stripped(Split(text));
    Blocks(ss, Heads(ss, 0), |ss|, Describer(strategy))
  }

  // ---------------------------------------------------------------------
  // The scan

  /** Python's truthiness of an optional string: present and not empty. */
  predicate Truthy(v: Option<string>) {
    v.Some? && v.value != ""
  }

  /** What the scan holds for the identifier it is working on: the
      identifier, its description lines so far, and the entries of the
      identifiers before it. */
  datatype Pending = Pending(wordNumber: Option<string>, description: seq<string>, result: seq<Entry>)

  /** The `Pending` state expected before line `i` when the identifiers met so
      far are at `seen`. */
  ghost function PendingAt(ss: seq<string>, describe: seq<string> -> string, seen: seq<nat>, i: nat): Pending {
    if seen == [] then Pending(None, [], [])
    else
      var h := seen[|seen| - 1];
      Pending(if h < |ss| then Some(ss[h]) else None,
              if h + 1 < |ss| && ss[h + 1] != "" then Gather(ss, h + 2, i) else [],
              Blocks(ss, seen[..|seen| - 1], h, describe))
  }

  /** The state of the scan before line `i`: `seen` holds the identifiers met
      so far, and the scan's variables hold what `PendingAt` expects; the term
      is the line after the last identifier (it keeps its old value when that
      identifier is the last line). */
  ghost predicate Scanning(ss: seq<string>, describe: seq<string> -> string, i: nat, seen: seq<nat>,
                           wordNumber: Option<string>, word: Option<string>,
                           description: seq<string>, result: seq<Entry>)
  {
    && i <= |ss| + 1
    && Heads(ss, 0) == seen + Heads(ss, i)
    && Pending(wordNumber, description, result) == PendingAt(ss, describe, seen, i)
    && (seen == [] ==> word == None && i <= |ss|)
    && (seen != [] ==>
          var h := seen[|seen| - 1];
          && h < |ss| && IsIdentifier(ss[h])
          && (if h + 1 < |ss| then word == Some(ss[h + 1]) && h + 2 <= i <= |ss| else i == |ss| + 1))
  }

  /** The entry the scan emits when an identifier closes the current one. */
  function Emitted(wordNumber: Option<string>, word: Option<string>, description: seq<string>,
                   describe: seq<string> -> string): seq<Entry>
  {
    if Truthy(wordNumber) && Truthy(word) && description != []
    then [Entry(wordNumber.value, word.value, describe(description))]
    else []
  }

  /** What the scan emits for the current identifier is its entry. */
  lemma EmittedIsEntry(ss: seq<string>, describe: seq<string> -> string, i: nat, seen: seq<nat>,
                       wordNumber: Option<string>, word: Option<string>,
                       description: seq<string>, result: seq<Entry>)
    requires Scanning(ss, describe, i, seen, wordNumber, word, description, result)
    requires seen != []
    ensures Emitted(wordNumber, word, description, describe) == EntryAt(ss, seen[|seen| - 1], i, describe)
  {
    var h := seen[|seen| - 1];
    if h + 1 < |ss| && ss[h + 1] == "" {
      assert !Truthy(word);
    }
  }

  /** Closing the current identifier at line `i` completes the entries of
      all identifiers seen so far. */
  lemma EmitCloses(ss: seq<string>, describe: seq<string> -> string, i: nat, seen: seq<nat>,
                   wordNumber: Option<string>, word: Option<string>,
                   description: seq<string>, result: seq<Entry>)
    requires Scanning(ss, describe, i, seen, wordNumber, word, description, result)
    ensures result + Emitted(wordNumber, word, description, describe) == Blocks(ss, seen, i, describe)
  {
    if seen != [] {
      EmittedIsEntry(ss, describe, i, seen, wordNumber, word, description, result);
    }
  }

  lemma BlankStep(ss: seq<string>, describe: seq<string> -> string, i: nat, seen: seq<nat>,
                  wordNumber: Option<string>, word: Option<string>,
                  description: seq<string>, result: seq<Entry>)
    requires Scanning(ss, describe, i, seen, wordNumber, word, description, result)
    requires i < |ss| && ss[i] == ""
    ensures Scanning(ss, describe, i + 1, seen, wordNumber, word, description, result)
  {
  }

  lemma TextStep(ss: seq<string>, describe: seq<string> -> string, i: nat, seen: seq<nat>,
                 wordNumber: Option<string>, word: Option<string>,
                 description: seq<string>, result: seq<Entry>)
    requires Scanning(ss, describe, i, seen, wordNumber, word, description, result)
    requires i < |ss| && ss[i] != "" && !IsIdentifier(ss[i])
    ensures Scanning(ss, describe, i + 1, seen, wordNumber, word,
                     if Truthy(wordNumber) && Truthy(word) then description + [ss[i]] else description, result)
  {
  }

  lemma HeadsStep(ss: seq<string>, seen: seq<nat>, i: nat)
    requires Heads(ss, 0) == seen + Heads(ss, i)
    requires i < |ss| && IsIdentifier(ss[i])
    ensures Heads(ss, 0) == (seen + [i]) + Heads(ss, i + 2)
  {
    assert Heads(ss, i) == [i] + Heads(ss, i + 2);
  }

  lemma IdentifierStep(ss: seq<string>, describe: seq<string> -> string, i: nat, seen: seq<nat>,
                       word: Option<string>, closed: seq<Entry>)
    requires Heads(ss, 0) == seen + Heads(ss, i)
    requires closed == Blocks(ss, seen, i, describe)
    requires i < |ss| && IsIdentifier(ss[i])
    ensures Scanning(ss, describe, i + 2, seen + [i], Some(ss[i]),
                     if i + 1 < |ss| then Some(ss[i + 1]) else word, [], closed)
  {
    var seen' := seen + [i];
    assert seen'[..|seen'| - 1] == seen;
    assert seen'[|seen'| - 1] == i;
    HeadsStep(ss, seen, i);
    if i + 1 < |ss| {
      assert Gather(ss, i + 2, i + 2) == [];
    }
  }

  lemma ScanDone(ss: seq<string>, describe: seq<string> -> string, i: nat, seen: seq<nat>,
                 wordNumber: Option<string>, word: Option<string>,
                 description: seq<string>, result: seq<Entry>)
    requires Scanning(ss, describe, i, seen, wordNumber, word, description, result)
    requires i >= |ss|
    ensures result + Emitted(wordNumber, word, description, describe) == Blocks(ss, Heads(ss, 0), |ss|, describe)
  {
    assert Heads(ss, 0) == seen;
    EmitCloses(ss, describe, i, seen, wordNumber, word, description, result);
    if seen != [] {
      var h := seen[|seen| - 1];
      if h + 1 < |ss| {
        assert i == |ss|;
      }
    }
  }

  /** The "save previous entry" step of the scan: appends the pending
      entry when the identifier, the term and the description lines are all
      present. */
  method SavePending(strategy: JoinStrategy, wordNumber: Option<string>, word: Option<string>,
                     descriptionLines: seq<string>, result: seq<Entry>) returns (saved: seq<Entry>)
    ensures saved == result + Emitted(wordNumber, word, descriptionLines, Describer(strategy))
  {
    saved := result;
    if Truthy(wordNumber) && Truthy(word) && descriptionLines != [] {
      var description := DescribeLines(strategy, descriptionLines);
      saved := saved + [Entry(wordNumber.value, word.value, description)];
    }
  }

  /** `extract_words_and_descriptions`, as the scan the source runs; the
      joining strategy of descriptions is a parameter, `SemanticJoin` being
      the one the source uses. */
  method ExtractWordsAndDescriptions(text: string, strategy: JoinStrategy) returns (result: seq<Entry>)
    ensures result == Segment(text, strategy)
  {
    var lines := Split(text);
    ghost var ss := Stripped(lines);
    ghost var describe := Describer(strategy);
    result := [];
    var wordNumber: Option<string> := None;
    var word: Option<string> := None;
    var descriptionLines: seq<string> := [];
    ghost var seen: seq<nat> := [];
    var i: nat := 0;
    while i < |lines|
      invariant Scanning(ss, describe, i, seen, wordNumber, word, descriptionLines, result)
      decreases |lines| + 1 - i
    {
      var line := Strip(lines[i]);
      assert line == ss[i];
      if line == "" {
        BlankStep(ss, describe, i, seen, wordNumber, word, descriptionLines, result);
        i := i + 1;
      } else if IsIdentifier(line) {
        EmitCloses(ss, describe, i, seen, wordNumber, word, descriptionLines, result);
        ghost var i0, seen0, word0 := i, seen, word;
        result := SavePending(strategy, wordNumber, word, descriptionLines, result);
        seen := seen + [i];
        wordNumber := Some(line);
        descriptionLines := [];
        i := i + 1;
        if i < |lines| {
          assert Strip(lines[i]) == ss[i];
          word := Some(Strip(lines[i]));
        }
        i := i + 1;
        IdentifierStep(ss, describe, i0, seen0, word0, result);
      } else {
        TextStep(ss, describe, i, seen, wordNumber, word, descriptionLines, result);
        if Truthy(wordNumber) && Truthy(word) {
          descriptionLines := descriptionLines + [line];
        }
        i := i + 1;
      }
    }
    ScanDone(ss, describe, i, seen, wordNumber, word, descriptionLines, result);
    result := SavePending(strategy, wordNumber, word, descriptionLines, result);
  }

  // ---------------------------------------------------------------------
  // What the entries are

  /** The identifiers are stripped identifier lines, in increasing order,
      and the line after each (its term) is never taken as an identifier. */
  lemma {:induction false} HeadsAreIdentifiers(ss: seq<string>, i: nat)
    ensures forall k :: 0 <= k < |Heads(ss, i)| ==> i <= Heads(ss, i)[k] < |ss| && IsIdentifier(ss[Heads(ss, i)[k]])
    ensures forall k :: 0 < k < |Heads(ss, i)| ==> Heads(ss, i)[k - 1] + 2 <= Heads(ss, i)[k]
    decreases |ss| - i
  {
    if i < |ss| {
      HeadsAreIdentifiers(ss, i + 1);
      HeadsAreIdentifiers(ss, i + 2);
    }
  }

  /** Without an identifier line from `i` on there is no identifier. */
  lemma {:induction false} NoIdentifierNoHeads(ss: seq<string>, i: nat)
    requires forall k :: i <= k < |ss| ==> !IsIdentifier(ss[k])
    ensures Heads(ss, i) == []
    decreases |ss| - i
  {
    if i < |ss| {
      NoIdentifierNoHeads(ss, i + 1);
    }
  }

  /** The description lines are non-blank lines of the text. */
  lemma {:induction false} GatherNonBlank(ss: seq<string>, lo: nat, hi: nat)
    ensures forall k :: 0 <= k < |Gather(ss, lo, hi)| ==> Gather(ss, lo, hi)[k] != ""
    ensures forall x :: x in Gather(ss, lo, hi) ==> exists j :: lo <= j < hi && j < |ss| && x == ss[j]
    decreases hi
  {
    if lo < hi {
      GatherNonBlank(ss, lo, hi - 1);
    }
  }

  /** An entry the segmenter produces: an identifier, a non-empty term and a
      non-empty description. */
  predicate WellFormed(e: Entry) {
    IsIdentifier(e.wordNumber) && e.word != "" && e.description != ""
  }

  /** The identifier at line `h` and its term are lines `h` and `h + 1`. */
  predicate TermOf(ss: seq<string>, e: Entry, h: nat) {
    h + 1 < |ss| && e.wordNumber == ss[h] && e.word == ss[h + 1]
  }

  lemma EntryAtWellFormed(ss: seq<string>, h: nat, close: nat, strategy: JoinStrategy)
    requires h < |ss| && IsIdentifier(ss[h])
    ensures |EntryAt(ss, h, close, Describer(strategy))| <= 1
    ensures forall e :: e in EntryAt(ss, h, close, Describer(strategy)) ==> WellFormed(e) && TermOf(ss, e, h)
  {
    if h + 1 < |ss| {
      var lines := Gather(ss, h + 2, close);
      if ss[h + 1] != "" && lines != [] {
        GatherNonBlank(ss, h + 2, close);
        DescribeNonEmpty(strategy, lines);
        assert Describer(strategy)(lines) == Describe(strategy, lines);
      }
    }
  }

  lemma {:induction false} BlocksWellFormed(ss: seq<string>, hs: seq<nat>, close: nat, strategy: JoinStrategy)
    requires forall k :: 0 <= k < |hs| ==> hs[k] < |ss| && IsIdentifier(ss[hs[k]])
    ensures |Blocks(ss, hs, close, Describer(strategy))| <= |hs|
    ensures forall e :: e in Blocks(ss, hs, close, Describer(strategy)) ==>
      WellFormed(e) && exists k :: 0 <= k < |hs| && TermOf(ss, e, hs[k])
    decreases |hs|
  {
    if hs != [] {
      var init := hs[..|hs| - 1];
      var last := hs[|hs| - 1];
      var front := Blocks(ss, init, last, Describer(strategy));
      var back := EntryAt(ss, last, close, Describer(strategy));
      BlocksWellFormed(ss, init, last, strategy);
      EntryAtWellFormed(ss, last, close, strategy);
      forall e | e in front + back
        ensures WellFormed(e) && exists k :: 0 <= k < |hs| && TermOf(ss, e, hs[k])
      {
        if e in front {
          var k :| 0 <= k < |init| && TermOf(ss, e, init[k]);
          assert hs[k] == init[k];
        } else {
          assert TermOf(ss, e, hs[|hs| - 1]);
        }
      }
    }
  }

  /** Every entry of a text is well formed, and its identifier and term are
      two consecutive stripped lines of the text; there are no more entries
      than identifier lines the scan meets. */
  lemma SegmentWellFormed(text: string, strategy: JoinStrategy)
    ensures var ls := Split(text);
      && |Segment(text, strategy)| <= |Heads(Stripped(ls), 0)|
      && forall e :: e in Segment(text, strategy) ==>
           WellFormed(e) && exists h :: 0 <= h < |ls| - 1 && e.wordNumber == Strip(ls[h]) && e.word == Strip(ls[h + 1])
  {
    var ls := Split(text);
    var ss := Stripped(ls);
    var hs := Heads(ss, 0);
    HeadsAreIdentifiers(ss, 0);
    BlocksWellFormed(ss, hs, |ss|, strategy);
    forall e | e in Segment(text, strategy)
      ensures exists h :: 0 <= h < |ls| - 1 && e.wordNumber == Strip(ls[h]) && e.word == Strip(ls[h + 1])
    {
      var k :| 0 <= k < |hs| && TermOf(ss, e, hs[k]);
      var h := hs[k];
      assert e.wordNumber == Strip(ls[h]) && e.word == Strip(ls[h + 1]);
    }
  }

  /** A text without an identifier line has no entries. */
  lemma NoIdentifierNoEntries(text: string, strategy: JoinStrategy)
    requires forall k :: 0 <= k < |Split(text)| ==> !IsIdentifier(Strip(Split(text)[k]))
    ensures Segment(text, strategy) == []
  {
    var ss := Stripped(Split(text));
    NoIdentifierNoHeads(ss, 0);
  }

  /** The joining strategy decides the descriptions and nothing else: both
      give the same entries with the same identifiers and terms. */
  lemma {:induction false} BlocksAgree(ss: seq<string>, hs: seq<nat>, close: nat, a: JoinStrategy, b: JoinStrategy)
    ensures |Blocks(ss, hs, close, Describer(a))| == |Blocks(ss, hs, close, Describer(b))|
    ensures forall k :: 0 <= k < |Blocks(ss, hs, close, Describer(a))| ==>
      && Blocks(ss, hs, close, Describer(a))[k].wordNumber == Blocks(ss, hs, close, Describer(b))[k].wordNumber
      && Blocks(ss, hs, close, Describer(a))[k].word == Blocks(ss, hs, close, Describer(b))[k].word
    decreases |hs|
  {
    if hs != [] {
      BlocksAgree(ss, hs[..|hs| - 1], hs[|hs| - 1], a, b);
    }
  }

  lemma StrategiesAgreeOnTerms(text: string)
    ensures |Segment(text, SemanticJoin)| == |Segment(text, LiteralNewlineJoin)|
    ensures forall k :: 0 <= k < |Segment(text, SemanticJoin)| ==>
      && Segment(text, SemanticJoin)[k].wordNumber == Segment(text, LiteralNewlineJoin)[k].wordNumber
      && Segment(text, SemanticJoin)[k].word == Segment(text, LiteralNewlineJoin)[k].word
  {
    var ss := Stripped(Split(text));
    BlocksAgree(ss, Heads(ss, 0), |ss|, SemanticJoin, LiteralNewlineJoin);
  }

  /** An identifier, its term and two ordinary description lines make one
      entry: the coded rule joins the two lines with a space, the literal one
      with a line break. */
  lemma TwoLineEntry(id: string, term: string, a: string, b: string)
    requires IsIdentifier(id) && term != "" && a != "" && b != ""
    requires Strip(id) == id && Strip(term) == term && Strip(a) == a && Strip(b) == b
    requires '\n' !in id && '\n' !in term && '\n' !in a && '\n' !in b
    requires !IsIdentifier(a) && !IsIdentifier(b) && !HasBlockPrefix(b)
    ensures Segment(Join([id, term, a, b]), SemanticJoin) == [Entry(id, term, a + " " + b)]
    ensures Segment(Join([id, term, a, b]), LiteralNewlineJoin) == [Entry(id, term, a + "\n" + b)]
  {
    var ls := [id, term, a, b];
    SplitJoin(ls);
    var ss := Stripped(ls);
    assert ss == ls;
    assert Heads(ss, 2) == [] by {
      assert Heads(ss, 4) == [];
      assert Heads(ss, 3) == [];
    }
    assert Heads(ss, 0) == [0];
    assert Gather(ss, 2, 4) == [a, b] by {
      assert Gather(ss, 2, 2) == [];
      assert Gather(ss, 2, 3) == [a];
    }
    StrategiesDiffer(a, b);
    assert [0][..0] == [];
  }
}
