/** How the engine sees a log file through encoding/csv: the content is cut
    into lines at '\n' (a final newline ends the last line rather than starting
    an empty one), and each line into fields at ','. Quoting, "\r\n" line ends
    and the field-count check of the real reader are not part of this model. */
module Csv {
  import opened Text

  /** The file is empty or its last line is complete. */
  predicate Terminated(content: string)
  {
    content == [] || content[|content| - 1] == '\n'
  }

  function Lines(content: string): (lines: seq<string>)
    ensures forall i :: 0 <= i < |lines| ==> '\n' !in lines[i]
  {
    var parts := Split(content, '\n');
    if parts[|parts| - 1] == [] then parts[..|parts| - 1] else parts
  }

  function Fields(line: string): seq<string>
  {
    Split(line, ',')
  }

  /** The records the reader yields, one per line, front to back. */
  function Records(content: string): seq<seq<string>>
  {
    var lines := Lines(content);
    seq(|lines|, i requires 0 <= i < |lines| => Fields(lines[i]))
  }

  /** An empty file yields no records. */
  lemma RecordsOfEmpty()
    ensures Records([]) == []
  {
    assert Split([], '\n') == [[]];
  }

  /** Appending one complete line to a terminated file adds exactly that line. */
  lemma LinesAppend(content: string, line: string)
    requires Terminated(content)
    requires '\n' !in line
    ensures Lines(content + line + "\n") == Lines(content) + [line]
  {
    SplitWithoutSeparator(line, '\n');
    SplitAround(line, [], '\n');
    assert line + ['\n'] + [] == line + "\n";
    if content == [] {
      assert content + line + "\n" == line + ['\n'] + [];
    } else {
      var front := content[..|content| - 1];
      assert content == front + ['\n'] + [];
      SplitAround(front, [], '\n');
      assert content + line + "\n" == front + ['\n'] + (line + "\n");
      SplitAround(front, line + "\n", '\n');
      var before := Split(front, '\n');
      assert Split(content, '\n') == before + [[]];
      assert Split(content + line + "\n", '\n') == before + [line] + [[]];
    }
  }

  /** The same on records: the appended line is read back as the last record,
      and every earlier record is read exactly as before. */
  lemma RecordsAppend(content: string, line: string)
    requires Terminated(content)
    requires '\n' !in line
    ensures Terminated(content + line + "\n")
    ensures Records(content + line + "\n") == Records(content) + [Fields(line)]
  {
    LinesAppend(content, line);
    var before, after := Lines(content), Lines(content + line + "\n");
    assert forall i :: 0 <= i < |before| ==> after[i] == before[i];
  }
}
