/**
 * The MedQA prompt: the question stem, a line "Options:", one line
 * "(<label>): <text>" per answer choice in the record's key order, and a
 * final newline.
 */
module Formatter {
  import opened Text

  /** One answer choice as `Object.entries` yields it. */
  datatype Choice = Choice(key: string, value: string)

  /** A parsed MedQA line: the stem, the choices in key order and the correct label. */
  datatype MedQAItem = MedQAItem(question: string, options: seq<Choice>, answer: string)

  /** The line shown for one answer choice. */
  function OptionLine(c: Choice): string {
    "(" + c.key + "): " + c.value
  }

  /** The key and the text can be read back from an option line at fixed offsets. */
  lemma OptionLineParts(c: Choice)
    ensures |OptionLine(c)| == |c.key| + |c.value| + 4
    ensures OptionLine(c)[0] == '(' && OptionLine(c)[1..|c.key| + 1] == c.key
    ensures OptionLine(c)[|c.key| + 1..|c.key| + 4] == "): " && OptionLine(c)[|c.key| + 4..] == c.value
  {
  }

  /** The option lines, one per choice, in order. */
  function OptionLines(options: seq<Choice>): seq<string>
  {
    seq(|options|, k requires 0 <= k < |options| => OptionLine(options[k]))
  }

  /** The header between the stem and the option lines. */
  const OptionsHeader: string := "\nOptions:\n"

  /** The prompt sent for one MedQA item. */
  function FormatQuestion(stem: string, options: seq<Choice>): string {
    stem + OptionsHeader + Join(OptionLines(options), "\n") + "\n"
  }

  /** The prompt starts with the stem and ends with a newline. */
  lemma FormatQuestionEnds(stem: string, options: seq<Choice>)
    ensures |FormatQuestion(stem, options)| > |stem|
    ensures FormatQuestion(stem, options)[..|stem|] == stem
    ensures FormatQuestion(stem, options)[|FormatQuestion(stem, options)| - 1] == '\n'
  {
    var rest := OptionsHeader + Join(OptionLines(options), "\n") + "\n";
    assert FormatQuestion(stem, options) == stem + rest;
  }

  /** The prompt of a parsed item. */
  function CompleteQuestion(item: MedQAItem): string {
    FormatQuestion(item.question, item.options)
  }

  /** No option line contains a newline when no key or value does. */
  lemma OptionLinesSingleLine(options: seq<Choice>)
    requires forall k :: 0 <= k < |options| ==> '\n' !in options[k].key && '\n' !in options[k].value
    ensures forall k :: 0 <= k < |options| ==> '\n' !in OptionLines(options)[k]
  {
    forall k | 0 <= k < |options|
      ensures '\n' !in OptionLine(options[k])
    {
      var c := options[k];
      assert OptionLine(c) == "(" + c.key + "): " + c.value;
    }
  }

  /** The prompt is its lines joined with newlines. */
  lemma FormatQuestionJoin(stem: string, options: seq<Choice>)
    ensures FormatQuestion(stem, options) ==
      Join([stem, "Options:"] + (if options == [] then [""] else OptionLines(options)) + [""], "\n")
  {
    var body := if options == [] then [""] else OptionLines(options);
    var middle := Join(body, "\n");
    assert middle == Join(OptionLines(options), "\n");
    var head := [stem, "Options:"];
    assert Join(head, "\n") == stem + "\n" + "Options:" by {
      assert head[1..] == ["Options:"];
    }
    JoinAppend(head, body, "\n");
    JoinAppend(head + body, [""], "\n");
    calc {
      Join(head + body + [""], "\n");
      Join(head + body, "\n") + "\n" + "";
      stem + "\n" + "Options:" + "\n" + middle + "\n";
      { assert stem + "\n" + "Options:" + "\n" == stem + OptionsHeader; }
      stem + OptionsHeader + middle + "\n";
    }
  }

  /**
   * Read back line by line, the prompt is the stem, "Options:", the option
   * lines in order (a single empty line when there are no choices, since
   * an empty list joins to the empty string) and an empty last piece
   * after the final newline.
   */
  lemma FormatQuestionLines(stem: string, options: seq<Choice>)
    requires '\n' !in stem
    requires forall k :: 0 <= k < |options| ==> '\n' !in options[k].key && '\n' !in options[k].value
    ensures Split(FormatQuestion(stem, options), '\n') ==
      [stem, "Options:"] + (if options == [] then [""] else OptionLines(options)) + [""]
  {
    var body := if options == [] then [""] else OptionLines(options);
    var lines := [stem, "Options:"] + body + [""];
    FormatQuestionJoin(stem, options);
    OptionLinesSingleLine(options);
    assert forall k :: 2 <= k < |lines| - 1 ==> lines[k] == body[k - 2];
    SplitJoin(lines, '\n');
  }

  /** Stem "Which?" with choices A: foo and B: bar gives the stem, the header and one line per choice. */
  lemma FormatExample()
    ensures FormatQuestion("Which?", [Choice("A", "foo"), Choice("B", "bar")]) == "Which?\nOptions:\n(A): foo\n(B): bar\n"
  {
    var lines := OptionLines([Choice("A", "foo"), Choice("B", "bar")]);
    assert lines[0] == "(A): foo" && lines[1] == "(B): bar";
    assert lines == ["(A): foo", "(B): bar"];
    assert Join(lines, "\n") == "(A): foo" + "\n" + "(B): bar" by {
      assert lines[1..] == ["(B): bar"];
    }
  }
}
