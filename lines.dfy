/** A text seen as lines: `text.Split('\n')` and `string.Join('\n', lines)` as the source uses
    them, the search for the first line that contains a marker, and the facts that make
    splitting and joining inverse to each other. */
module Lines {
  import opened Strings

  /** No element holds a line break, as is true of every result of `Split`. */
  predicate NoLineBreaks(lines: seq<string>)
  {
    forall k :: 0 <= k < |lines| ==> '\n' !in lines[k]
  }

  /** `text.Split('\n')`: the pieces between line breaks, empty pieces included; never empty. */
  function Split(text: string): (lines: seq<string>)
    ensures |lines| >= 1 && NoLineBreaks(lines)
  {
    if text == [] then [""]
    else
      var rest := Split(text[1..]);
      if text[0] == '\n' then [""] + rest else [[text[0]] + rest[0]] + rest[1..]
  }

  /** `string.Join('\n', lines)`. */
  function Join(lines: seq<string>): (text: string)
  {
    if |lines| == 0 then "" else if |lines| == 1 then lines[0] else lines[0] + "\n" + Join(lines[1..])
  }

  /** Re-joining the lines of a text gives the text back. */
  lemma {:induction false} JoinSplit(text: string)
    ensures Join(Split(text)) == text
  {
    if text != [] {
      var rest := Split(text[1..]);
      JoinSplit(text[1..]);
      if text[0] == '\n' {
        assert Split(text) == [""] + rest;
        assert ([""] + rest)[1..] == rest;
      } else {
        var lines := Split(text);
        assert lines == [[text[0]] + rest[0]] + rest[1..];
        if |rest| > 1 {
          assert lines[1..] == rest[1..];
        }
      }
    }
  }

  lemma {:induction false} SplitSingleLine(line: string)
    requires '\n' !in line
    ensures Split(line) == [line]
  {
    if line != [] {
      SplitSingleLine(line[1..]);
      assert [line[0]] + line[1..] == line;
    }
  }

  /** A line followed by a line break splits off as the first line. */
  lemma {:induction false} SplitFirstLine(line: string, rest: string)
    requires '\n' !in line
    ensures Split(line + "\n" + rest) == [line] + Split(rest)
  {
    var text := line + "\n" + rest;
    if line == [] {
      assert text[1..] == rest;
    } else {
      assert text[1..] == line[1..] + "\n" + rest;
      SplitFirstLine(line[1..], rest);
      assert [line[0]] + line[1..] == line;
    }
  }

  /** Splitting the join of lines without line breaks gives the lines back. */
  lemma {:induction false} SplitJoin(lines: seq<string>)
    requires |lines| >= 1 && NoLineBreaks(lines)
    ensures Split(Join(lines)) == lines
  {
    if |lines| == 1 {
      SplitSingleLine(lines[0]);
    } else {
      SplitJoin(lines[1..]);
      SplitFirstLine(lines[0], Join(lines[1..]));
      assert [lines[0]] + lines[1..] == lines;
    }
  }

  /** Joining two non-empty runs of lines puts one line break between them. */
  lemma {:induction false} JoinConcat(a: seq<string>, b: seq<string>)
    requires |a| >= 1 && |b| >= 1
    ensures Join(a + b) == Join(a) + "\n" + Join(b)
  {
    if |a| == 1 {
      assert (a + b)[1..] == b;
    } else {
      JoinConcat(a[1..], b);
      assert (a + b)[1..] == a[1..] + b;
    }
  }

  /** The join of a run of lines among others depends only on the run's own join. */
  lemma {:induction false} JoinMiddle(a: seq<string>, m: seq<string>, c: seq<string>)
    requires |m| >= 1
    ensures Join(a + m + c) ==
      (if |a| > 0 then Join(a) + "\n" else "") + Join(m) + (if |c| > 0 then "\n" + Join(c) else "")
  {
    if |c| > 0 {
      JoinConcat(m, c);
      if |a| > 0 {
        assert a + m + c == a + (m + c);
        JoinConcat(a, m + c);
      } else {
        assert a + m + c == m + c;
      }
    } else {
      assert a + m + c == a + m;
      if |a| > 0 {
        JoinConcat(a, m);
      } else {
        assert a + m == m;
      }
    }
  }

  /** A line placed among others joins to the same text as the lines it splits into. */
  lemma JoinSplitInside(a: seq<string>, x: string, c: seq<string>)
    ensures Join(a + [x] + c) == Join(a + Split(x) + c)
  {
    JoinSplit(x);
    JoinMiddle(a, [x], c);
    JoinMiddle(a, Split(x), c);
  }

  /** The joined text contains each of its lines. */
  lemma {:induction false} JoinContainsLine(lines: seq<string>, k: nat)
    requires k < |lines|
    ensures Contains(Join(lines), lines[k])
  {
    if |lines| == 1 {
      ContainsSelf(lines[0]);
    } else if k == 0 {
      ContainsPrefix(lines[0], "\n" + Join(lines[1..]));
      assert lines[0] + "\n" + Join(lines[1..]) == lines[0] + ("\n" + Join(lines[1..]));
    } else {
      JoinContainsLine(lines[1..], k - 1);
      ContainsExtend(lines[0] + "\n", Join(lines[1..]), "", lines[k]);
      assert lines[0] + "\n" + Join(lines[1..]) + "" == Join(lines);
    }
  }

  /** Joined in front of further lines, a run of lines is contained in the result. */
  lemma JoinContainsRunBefore(run: seq<string>, after: seq<string>)
    requires |run| >= 1 && |after| >= 1
    ensures Contains(Join(run + after), Join(run))
  {
    JoinConcat(run, after);
    ContainsBeforeSeparator(Join(run), "\n", Join(after));
  }

  /** The joined text contains the join of every run of consecutive lines. */
  lemma JoinContainsRun(before: seq<string>, run: seq<string>, after: seq<string>)
    requires |run| >= 1
    ensures Contains(Join(before + run + after), Join(run))
  {
    var text := Join(run);
    if |after| == 0 {
      assert before + run + after == before + run;
      if |before| == 0 {
        assert before + run == run;
        ContainsSelf(text);
      } else {
        JoinConcat(before, run);
        ContainsSuffix(Join(before) + "\n", text);
      }
    } else {
      JoinContainsRunBefore(run, after);
      if |before| == 0 {
        assert before + run + after == run + after;
      } else {
        var tail := Join(run + after);
        JoinConcat(before, run + after);
        assert before + run + after == before + (run + after);
        ContainsExtend(Join(before) + "\n", tail, "", text);
        assert Join(before) + "\n" + tail + "" == Join(before) + "\n" + tail;
      }
    }
  }

  /** The joined text contains every text whose lines appear consecutively in it. */
  lemma JoinContainsBlock(before: seq<string>, block: string, after: seq<string>)
    ensures Contains(Join(before + Split(block) + after), block)
  {
    JoinSplit(block);
    JoinContainsRun(before, Split(block), after);
  }

  /** The index of the first line that contains `marker` (ordinal), or None when no line does. */
  function FirstLineContaining(lines: seq<string>, marker: string): (r: Option<nat>)
    ensures r.Some? ==> r.value < |lines| && Contains(lines[r.value], marker)
    ensures r.Some? ==> forall k :: 0 <= k < r.value ==> !Contains(lines[k], marker)
    ensures r.None? ==> forall k :: 0 <= k < |lines| ==> !Contains(lines[k], marker)
  {
    if lines == [] then None
    else if Contains(lines[0], marker) then Some(0)
    else match FirstLineContaining(lines[1..], marker)
      case None => None
      case Some(i) => Some(i + 1)
  }

  /** The first marker line of a run of lines is found behind a prefix that has none. */
  lemma {:induction false} FirstLineAfterPrefix(before: seq<string>, rest: seq<string>, marker: string)
    requires forall k :: 0 <= k < |before| ==> !Contains(before[k], marker)
    ensures FirstLineContaining(before + rest, marker) ==
      match FirstLineContaining(rest, marker)
      case None => None
      case Some(i) => Some(|before| + i)
  {
    if before == [] {
      assert before + rest == rest;
    } else {
      FirstLineAfterPrefix(before[1..], rest, marker);
      assert (before + rest)[1..] == before[1..] + rest;
      assert (before + rest)[0] == before[0];
    }
  }
}
