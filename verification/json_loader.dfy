/**
 * The line-delimited (MedQA) dataset loader, `fetchQuestionsFromJson`:
 * the file's content is split on '\n' and every line is parsed on its
 * own; a line that does not parse is skipped and the loop goes on.
 * `JSON.parse` is the parameter `parse`, `None` standing for a throw.
 */
module JsonLoader {
  import opened Wrappers
  import opened Text

  /** The values of the lines that parse, in line order. */
  function ParseAll<R>(lines: seq<string>, parse: string -> Option<R>): (values: seq<R>)
    ensures |values| <= |lines|
    decreases |lines|
  {
    if lines == [] then []
    else
      var prev := ParseAll(lines[..|lines| - 1], parse);
      match parse(lines[|lines| - 1])
      case Some(v) => prev + [v]
      case None => prev
  }

  /** `fetchQuestionsFromJson` on the file's content. */
  method FetchQuestionsFromJson<R>(content: string, parse: string -> Option<R>) returns (values: seq<R>)
    ensures values == ParseAll(Split(content, '\n'), parse)
    ensures |values| <= Count(content, '\n') + 1
  {
    var rows := Split(content, '\n');
    values := [];
    for i := 0 to |rows|
      invariant values == ParseAll(rows[..i], parse)
    {
      assert rows[..i + 1][..i] == rows[..i];
      var rowJson := parse(rows[i]);
      if rowJson.Some? {
        values := values + [rowJson.value];
      }
    }
    assert rows[..|rows|] == rows;
  }

  /** Parsing line by line distributes over concatenation of the lines. */
  lemma {:induction false} ParseAllAppend<R>(xs: seq<string>, ys: seq<string>, parse: string -> Option<R>)
    ensures ParseAll(xs + ys, parse) == ParseAll(xs, parse) + ParseAll(ys, parse)
    decreases |ys|
  {
    if ys == [] {
      assert xs + ys == xs;
    } else {
      var init := ys[..|ys| - 1];
      ParseAllAppend(xs, init, parse);
      assert (xs + ys)[..|xs + ys| - 1] == xs + init;
      assert (xs + ys)[|xs + ys| - 1] == ys[|ys| - 1];
    }
  }

  /** A line that fails to parse is dropped without affecting the lines around it. */
  lemma SkipsUnparsable<R>(xs: seq<string>, bad: string, ys: seq<string>, parse: string -> Option<R>)
    requires parse(bad).None?
    ensures ParseAll(xs + [bad] + ys, parse) == ParseAll(xs, parse) + ParseAll(ys, parse)
  {
    ParseAllAppend(xs + [bad], ys, parse);
    ParseAllAppend(xs, [bad], parse);
    assert [bad][..0] == [];
  }

  /**
   * A malformed line between two well-formed ones: the loader yields the
   * two records, in file order.
   */
  lemma MalformedLineBetween<R>(first: string, bad: string, last: string, parse: string -> Option<R>)
    requires '\n' !in first && '\n' !in bad && '\n' !in last
    requires parse(first).Some? && parse(bad).None? && parse(last).Some?
    ensures ParseAll(Split(first + "\n" + bad + "\n" + last, '\n'), parse) == [parse(first).value, parse(last).value]
  {
    var lines := [first, bad, last];
    assert [bad, last][1..] == [last];
    assert Join([bad, last], "\n") == bad + "\n" + last;
    assert lines[1..] == [bad, last];
    assert Join(lines, "\n") == first + "\n" + (bad + "\n" + last);
    assert first + "\n" + (bad + "\n" + last) == first + "\n" + bad + "\n" + last;
    SplitJoin(lines, '\n');
    SkipsUnparsable([first], bad, [last], parse);
    assert lines == [first] + [bad] + [last];
    assert ParseAll([first], parse) == [parse(first).value] by {
      assert [first][..0] == [];
    }
    assert ParseAll([last], parse) == [parse(last).value] by {
      assert [last][..0] == [];
    }
  }
}
