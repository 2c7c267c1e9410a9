/**
  Reassembling an entry's description from its lines. Ordinary wrapped lines
  are joined with a single space; a line that opens a block ("cf. ",
  "EXAMPLE: ", "Note 1 to entry: ") starts on a line of its own. A second,
  literal strategy joins every line with a line break.
 */
module Description {
  import opened Text
  import opened Sequences

  const CitationPrefix := "cf. "
  const ExamplePrefix := "EXAMPLE: "
  const NotePrefix := "Note 1 to entry: "

  /** The line opens a citation, an example or a note. */
  predicate HasBlockPrefix(line: string) {
    StartsWith(line, CitationPrefix) || StartsWith(line, ExamplePrefix) || StartsWith(line, NotePrefix)
  }

  /** What goes before a line that is appended to a non-empty description. */
  function Separator(line: string): string {
    if HasBlockPrefix(line) then "\n" else " "
  }

  /** One step of the reassembly: an empty accumulator takes the line as it
      is, a non-empty one takes the separator and then the line. */
  function Append(acc: string, line: string): string {
    if acc == "" then line else acc + Separator(line) + line
  }

  /** The description `_process_description_lines` builds: the lines
      appended one after another to an initially empty string. */
  function Joined(lines: seq<string>): string
    decreases |lines|
  {
    if lines == [] then "" else Append(Joined(lines[..|lines| - 1]), lines[|lines| - 1])
  }

  /** `_process_description_lines`, as the loop the source runs. */
  method ProcessDescriptionLines(descriptionLines: seq<string>) returns (processed: string)
    ensures processed == Joined(descriptionLines)
  {
    processed := "";
    for k := 0 to |descriptionLines|
      invariant processed == Joined(descriptionLines[..k])
    {
      TakeOneMore(descriptionLines, k);
      var line := descriptionLines[k];
      if HasBlockPrefix(line) {
        processed := if processed != "" then processed + "\n" + line else line;
      } else {
        processed := if processed != "" then processed + " " + line else line;
      }
    }
    TakeAll(descriptionLines);
  }

  // ---------------------------------------------------------------------
  // A reference reading of the rule, and what follows from it

  /** Each line preceded by its separator, in order. */
  function Continuation(lines: seq<string>): string
    decreases |lines|
  {
    if lines == [] then "" else Separator(lines[0]) + lines[0] + Continuation(lines[1..])
  }

  lemma {:induction false} ContinuationSnoc(lines: seq<string>, line: string)
    ensures Continuation(lines + [line]) == Continuation(lines) + Separator(line) + line
    decreases |lines|
  {
    if lines == [] {
      assert Continuation([line]) == Separator(line) + line + Continuation([]);
    } else {
      AppendTail(lines, [line]);
      ContinuationSnoc(lines[1..], line);
    }
  }

  /** When the first line is not empty, the description is that line as it
      is, then every later line after "\n" if it opens a block and after a
      space otherwise. */
  lemma {:induction false} JoinedShape(lines: seq<string>)
    requires |lines| > 0 && lines[0] != ""
    ensures Joined(lines) == lines[0] + Continuation(lines[1..])
    decreases |lines|
  {
    if |lines| == 1 {
      assert lines[..0] == [];
    } else {
      var init := lines[..|lines| - 1];
      var last := lines[|lines| - 1];
      JoinedShape(init);
      assert lines[1..] == init[1..] + [last];
      ContinuationSnoc(init[1..], last);
    }
  }

  /** The description is empty exactly when every line is. */
  lemma {:induction false} JoinedEmptyIff(lines: seq<string>)
    ensures Joined(lines) == "" <==> forall k :: 0 <= k < |lines| ==> lines[k] == ""
    decreases |lines|
  {
    if lines != [] {
      var init := lines[..|lines| - 1];
      JoinedEmptyIff(init);
      if Joined(lines) == "" {
        assert Joined(init) == "";
        forall k | 0 <= k < |lines| ensures lines[k] == "" {
          if k < |init| { assert lines[k] == init[k]; }
        }
      }
    }
  }

  /** The summed length of the lines. */
  function TotalLength(lines: seq<string>): nat
    decreases |lines|
  {
    if lines == [] then 0 else |lines[0]| + TotalLength(lines[1..])
  }

  /** How many times `c` occurs in `s`. */
  function Occurrences(s: string, c: char): nat
    decreases |s|
  {
    if s == [] then 0 else (if s[0] == c then 1 else 0) + Occurrences(s[1..], c)
  }

  /** How many of the lines open a block. */
  function BlockCount(lines: seq<string>): nat
    decreases |lines|
  {
    if lines == [] then 0 else (if HasBlockPrefix(lines[0]) then 1 else 0) + BlockCount(lines[1..])
  }

  lemma {:induction false} OccurrencesAppend(a: string, b: string, c: char)
    ensures Occurrences(a + b, c) == Occurrences(a, c) + Occurrences(b, c)
    decreases |a|
  {
    if a == [] {
      assert a + b == b;
    } else {
      assert (a + b)[1..] == a[1..] + b;
      OccurrencesAppend(a[1..], b, c);
    }
  }

  lemma {:induction false} ContinuationMeasures(lines: seq<string>)
    ensures |Continuation(lines)| == TotalLength(lines) + |lines|
    ensures (forall k :: 0 <= k < |lines| ==> '\n' !in lines[k]) ==>
      Occurrences(Continuation(lines), '\n') == BlockCount(lines)
    decreases |lines|
  {
    if lines != [] {
      var head := lines[0];
      ContinuationMeasures(lines[1..]);
      OccurrencesAppend(Separator(head) + head, Continuation(lines[1..]), '\n');
      OccurrencesAppend(Separator(head), head, '\n');
      if '\n' !in head {
        NoOccurrences(head, '\n');
      }
      assert Separator(head) == [Separator(head)[0]];
    }
  }

  lemma {:induction false} NoOccurrences(s: string, c: char)
    requires c !in s
    ensures Occurrences(s, c) == 0
    decreases |s|
  {
    if s != [] {
      NoOccurrences(s[1..], c);
    }
  }

  /** For n lines with a non-empty first line, the description is as long as
      the lines together plus one separator character for each of the n - 1
      later lines; when no line holds a line break, the description holds one
      for each later line that opens a block and no other. */
  lemma JoinedMeasures(lines: seq<string>)
    requires |lines| > 0 && lines[0] != ""
    ensures |Joined(lines)| == TotalLength(lines) + |lines| - 1
    ensures (forall k :: 0 <= k < |lines| ==> '\n' !in lines[k]) ==>
      Occurrences(Joined(lines), '\n') == BlockCount(lines[1..])
  {
    JoinedShape(lines);
    ContinuationMeasures(lines[1..]);
    OccurrencesAppend(lines[0], Continuation(lines[1..]), '\n');
    if forall k :: 0 <= k < |lines| ==> '\n' !in lines[k] {
      NoOccurrences(lines[0], '\n');
      assert forall k :: 0 <= k < |lines[1..]| ==> lines[1..][k] == lines[k + 1];
    }
  }

  // ---------------------------------------------------------------------
  // The two joining strategies

  /** The joining rule as coded, and the literal one that puts a line break
      between every two lines. */
  datatype JoinStrategy = SemanticJoin | LiteralNewlineJoin

  function Describe(strategy: JoinStrategy, lines: seq<string>): string {
    match strategy
    case SemanticJoin => Joined(lines)
    case LiteralNewlineJoin => Join(lines)
  }

  /** The description of `lines` under `strategy`, built as the source
      builds it: by `_process_description_lines` for the coded rule, by a
      line-break join for the literal one. */
  method DescribeLines(strategy: JoinStrategy, lines: seq<string>) returns (description: string)
    ensures description == Describe(strategy, lines)
  {
    if strategy == SemanticJoin {
      description := ProcessDescriptionLines(lines);
    } else {
      description := Join(lines);
    }
  }

  /** Under either strategy, non-empty lines give a non-empty description. */
  lemma DescribeNonEmpty(strategy: JoinStrategy, lines: seq<string>)
    requires |lines| > 0 && forall k :: 0 <= k < |lines| ==> lines[k] != ""
    ensures Describe(strategy, lines) != ""
  {
    if strategy == SemanticJoin {
      JoinedEmptyIff(lines);
    } else if |lines| > 1 {
      assert Join(lines) == lines[0] + "\n" + Join(lines[1..]);
    }
  }

  /** The two strategies differ on two ordinary lines: the coded rule joins
      them with a space, the literal one with a line break. */
  lemma StrategiesDiffer(a: string, b: string)
    requires a != "" && !HasBlockPrefix(b)
    ensures Describe(SemanticJoin, [a, b]) == a + " " + b
    ensures Describe(LiteralNewlineJoin, [a, b]) == a + "\n" + b
  {
    assert [a, b][..1] == [a];
    assert [a][..0] == [];
    assert Joined([a]) == a;
    assert Joined([a, b]) == Append(a, b);
    assert [a, b][1..] == [b];
    assert Join([a, b]) == a + "\n" + Join([b]);
  }
}
